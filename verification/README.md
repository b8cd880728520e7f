# Verified arithmetic of the pairing library

QShield's key scheme rests on the vendored pairing library under `tpl/sgx-pbc`: prime fields in
Montgomery form, ternary fields packed into machine words, polynomial quotient rings, curve operations
and the pairing loops, and the search for curve parameters. Much of that code comes twice, as a simple
form and as a fast one, or as a loop whose correctness hangs on an invariant nobody wrote down. This
project models that code in Dafny, with the same branches, the same order of updates and the same edge
cases, and proves what the loops compute.

`dafny verify dfyconfig.toml` checks everything. Integers of GMP are Dafny's `int`; limbs are integers
below 2^64 with every wrap-around written out; the words of the ternary fields are 64-bit vectors.
Objects whose routines overwrite them in place are classes or arrays, and contracts hold for every
aliasing of target and operands that the code allows.

| files | what they cover |
|---|---|
| `Arith`, `Bits` | powers, remainders, primes, extended Euclid; bits of integers as `mpz_*` functions see them |
| `Limbs`, `Montgomery`, `MontgomeryModuli`, `MontgomeryField`, `MontgomeryRuns` | limb loops, Montgomery multiplication and reduction, the moduli it works for, field elements with a zero flag, whole programs of field calls |
| `Pell`, `PellSolutions`, `CmSearch` | the generalised Pell equation by continued fractions, all its solutions for small norms; the searches for type D and type G parameters |
| `Fp`, `QuadraticField`, `Residues`, `SquareRoots`, `Powering` | prime fields and their quadratic extensions, Euler's criterion, square roots, windowed and table exponentiation |
| `Lucas`, `Curve`, `FrobeniusTrace` | Lucas ladders, curve operations one at a time and in batches, traces and orders over extensions |
| `MillerLoop`, `Frobenius`, `FinalPower`, `TypeAPairing` | lines and their values, q-th powers by the binomial theorem, the affine, projective and preprocessed type A pairing |
| `Polynomials`, `PolynomialDivision`, `PolynomialBezout`, `PolynomialRing`, `PolynomialProducts` | polynomials over F_p, long division, inversion, reduction by stored powers, Karatsuba |
| `TernaryWords`, `TernaryElements`, `TernaryField`, `TernaryInverse` | GF(3^m) on pairs of words: digits, products, cubes, reduction, inversion |
| `TernaryTower`, `TernaryCubes`, `EtaPairing` | GF(3^2m) and GF(3^6m), cubing as a ring homomorphism, the two eta_T loops |
| `TernaryIdentities`, `TernaryFermat`, `TernaryFrobenius` | identities over GF(3^m) by reflection, the fields as fields: inverses, Fermat, iterated cubing |
| `CubicExtension`, `SexticExtension`, `EtaFinalPower`, `EtaParameters` | norms and inversion in GF(3^3m) and GF(3^6m), the final powering of eta_T, the generated parameters |
| `TernaryPoints`, `EtaTPairing`, `EtaGeometry` | square roots, random points and sums on y^2 = x^3 - x + 1, the whole eta_T pairing, and what its loops multiply |

Main results, in the order of their difficulty:

- `TypeAPairing`: the affine loop, the projective loop and preprocessing followed by application all return
  one value, `Pairing(P, Q)`, and `TypeAPairing.PairingIsPower` says which: a power of a product of line values at the
  image of Q, the lines being those that `Curve.GroupAddMeans`, `MillerLoop.TangentMeets` and
  `TypeAPairing.ClosingLineMeets` describe.
- `EtaGeometry.LoopIsProduct`: what the eta_T loops multiply, as values of a line and of conics at the image of
  multiples of the second point.
- `TernaryInverse.Gf3mInvert`: the fixed 2m passes invert every nonzero element.
- `EtaTPairing.EtaTPairing`: the whole eta_T pairing is one power of the loop's value, whichever loop is
  chosen, and lies in the group of the curve's order; below it `EtaFinalPower.Algorithm6`, `Algorithm7` and
  `Algorithm8`, for every tower of degree prime to 6.
- `Montgomery.MontMul` with `Montgomery.ProductIff`, `MontgomeryModuli.ModulusIff` and
  `MontgomeryRuns.ExecuteAll`: limb arithmetic with wrap-around is arithmetic modulo p, over every program of field
  calls, for exactly the moduli named below.
- `Pell.GeneralPell`, `PellSolutions.SolutionsAreOrbit` and `CmSearch.CmSearchD`/`CmSearchG` with
  `CmSearch.SearchTries`: termination, minimality, all solutions for small norms, what every handed-out parameter set
  satisfies, and which solutions are tried.
- `PolynomialRing.PolymodInvert` and the products of `PolynomialProducts`: a true inverse, and one reduced
  product whichever routine computes it.
- `EtaPairing.DoubleRound`, `Lucas.LucasOdd`, `SquareRoots.Tonelli`, `FrobeniusTrace.Composition`,
  `Curve.MultiAdd`, `Powering.PowWind`: a fast form equal to its simple one, on all inputs.

Where the code does not do what its callers might expect:

- `mont_mul` drops the limb above its window: a product is right if and only if no round needs that limb
  (`Montgomery.ProductIff`), and a modulus is safe if and only if it has no collision
  (`MontgomeryModuli.ModulusIff`). A top limb other than B-1 is safe. With the top limb B-1, two limbs are safe for
  a low one of at most B/2, and for B/2 + k it depends on whether k is composite; p = B^2 - r with r below B/4, such
  as 2^128 - 159, loses products (`MontgomeryModuli.TwoLimbsDecided`). Three limbs are decided by the two lower ones
  (`MontgomeryModuli.ThreeLimbsDecided`), more of them by the excess of p over the room
  (`MontgomeryModuli.ExcessCrowds`, `MontgomeryModuli.NextLimbLoses`).
- `fp_cmp` reads stale limbs of a zero second operand (`MontgomeryField.FpCmp`); `fp_halve` leaves the
  flag of a distinct target alone (`MontgomeryField.FpHalve`).
- `fp_pow_mpz` gives 0 for zero to the power 0 (`MontgomeryField.FpPowMpz`), unlike generic powering.
- the type D search forms 3*D in 32 bits (`CmSearch.MntCmIff`); the type G search does not negate x in the
  class U = 10 modulo 15, and no set from that class satisfies the equation (`CmSearch.FreemanCmIff`).
- both searches stop as soon as one successor is too long, so the solutions of the same round that come after it
  are not tried although they are short enough (`CmSearch.SearchTries`, `CmSearch.SearchStopsShort`).
- the loop that strips small factors off n gives up when the largest prime factor is repeated
  (`CmSearch.StripSmallFactors`, `CmSearch.RepeatedLargest`).
- `fq_sqrt` takes the root of a real element x only when x is the square root that Tonelli's method returns for x^2
  and is itself a square, for p = 3 modulo 4 when x is a square; all other nonzero real elements have roots
  too, and the routine misses them (`SquareRoots.FqSqrt`, `SquareRoots.AxisRootMissed`).
- `algorithm7` computes the power 3^m + 1 exactly for elements of norm 1 (`EtaFinalPower.SeventhIff`), which is what
  `algorithm8` passes to it.
- `point_random` of the eta_T curve returns a point off the curve when its first random abscissa is 0, because
  `continue` goes to a comparison of two elements that are still zero (`TernaryPoints.PointRandom`).
- the comment above `lucas_even` asks for an even cofactor; the code wants an odd one
  (`Lucas.LucasEven`).
- `multi_double` skips a target that is flagged infinite before the call (`Curve.MultiDouble`).

## Model

| member | source | states |
|---|---|---|
| `Limbs.Mul1` | tpl/sgx-gmp/sgx_tgmp.h:1544-1545 | mpn_mul_1 as a schoolbook loop: the n limbs written and the carry returned are together exactly b times x; limbs outside the window are untouched |
| `Limbs.AddMul1` | tpl/sgx-gmp/sgx_tgmp.h:1477-1478 | mpn_addmul_1: window plus carry is the old window plus b times x, nothing outside the window changes |
| `Limbs.Add1` | tpl/sgx-gmp/sgx_tgmp.h:1985-2020 | mpn_add_1, stopping at the first limb that does not carry: window plus carry-out is the old window plus v, the carry-out is 0 or 1 |
| `Limbs.AddN` | tpl/sgx-gmp/sgx_tgmp.h:1474-1475 | mpn_add_n: sum and carry are exactly a + b |
| `Limbs.SubN` | tpl/sgx-gmp/sgx_tgmp.h:1611-1612 | mpn_sub_n: the difference with its borrow is exactly a - b |
| `Limbs.Cmp` | tpl/sgx-gmp/sgx_tgmp.h:2074-2094 | mpn_cmp decides the order of the values, not merely of a limb |
| `Limbs.LShift1` | tpl/sgx-gmp/sgx_tgmp.h:1535-1536 | mpn_lshift by one: result and bit shifted out are twice the operand |
| `Limbs.RShift1` | tpl/sgx-gmp/sgx_tgmp.h:1583-1584 | mpn_rshift by one: twice the result plus the parity is the operand, and the top bit is clear |
| `Limbs.ValInjective` | tpl/sgx-pbc/arith/montfp.c:41-49 | a value has one representation in a given number of limbs |
| `Limbs.ToLimbs` | tpl/sgx-pbc/arith/montfp.c:44-49 | set_limbs: n limbs, zero padded, whose value is the integer exported |
| `Montgomery.AddMultipleOfP` | tpl/sgx-pbc/arith/montfp.c:346-347 | adding u*p to the window and recording the overflow by comparing the new limb with the old one loses nothing: the window with its overflow limb is the old window plus u*p |
| `Montgomery.MontRound` | tpl/sgx-pbc/arith/montfp.c:343-348 | one pass of the loop takes the window after i rounds to the window after i+1, wrap-around of the first, unchecked addition included |
| `Montgomery.MontMul` | tpl/sgx-pbc/arith/montfp.c:333-362 | for every modulus and every operands, c ends with the value of the specification function Product, which models the limb wrap-around exactly |
| `Montgomery.WindowMeans` | tpl/sgx-pbc/arith/montfp.c:338-348 | after every round the window is below b + p and, scaled back by B^i, congruent to the limbs of a read so far times b |
| `Montgomery.ProductMeans` | tpl/sgx-pbc/arith/montfp.c:331-362 | for b below a modulus that leaves room, the product ends below p and c*B^t is congruent to a*b modulo p |
| `Montgomery.TopLimbGivesRoom` | tpl/sgx-pbc/arith/montfp.c:345 | a top limb of p other than B-1 leaves that room, so the unchecked addition cannot wrap |
| `Montgomery.WindowExact` | tpl/sgx-pbc/arith/montfp.c:338-348 | for every operand and every modulus: the window times B^i plus B^(t+1) times the carries lost so far is exactly the limbs read times b plus a multiple of p |
| `Montgomery.ProductIff` | tpl/sgx-pbc/arith/montfp.c:333-362 | the product of a and b is right if and only if in every round the window plus a[i]*b fits the t+1 limbs kept for it: lost carries add up to a nonzero number below p |
| `MontgomeryModuli.ModulusIff` | tpl/sgx-pbc/arith/montfp.c:333-362 | for every odd modulus: every product of operands below p is right if and only if the modulus has no collision (j, x, z, d), a congruence modulo B^j and an inequality in p alone |
| `MontgomeryModuli.CollisionLoses` | tpl/sgx-pbc/arith/montfp.c:343-348 | from a collision the operands: low limbs of B^j - x below a limb B-1, times p - d, drop a carry in round j |
| `MontgomeryModuli.LossCollides` | tpl/sgx-pbc/arith/montfp.c:343-348 | and the first carry any two operands lose is a collision of the modulus |
| `MontgomeryModuli.TwoLimbsIff` | tpl/sgx-pbc/arith/montfp.c:343-348 | two limbs, p = B^2 - r with top limb B-1: some product is wrong if and only if u*r = x*y + c*B with x, y above r, u below B and c at most (u - x - y)*B |
| `MontgomeryModuli.TwoLimbsDecided` | tpl/sgx-pbc/arith/montfp.c:345 | hence right for a low limb of at most B/2, wrong above 3B/4, and for the low limb B/2 + k in between wrong for every composite k and right for k prime or 1 with 2k^2 at most B |
| `MontgomeryModuli.ThreeLimbsDecided` | tpl/sgx-pbc/arith/montfp.c:345 | three limbs with the top one B-1: every product is right if and only if the next limb is at most 2, or 3 with a low limb of at least 5 and below B/2 |
| `MontgomeryModuli.ExcessCrowds` | tpl/sgx-pbc/arith/montfp.c:343-348 | three limbs or more: once (B+1)*p exceeds B^(t+1) by B^(j+1) + 2B^(t-j) for some round j from 1 to t-2, B^(j+1) - 1 and p - (2p mod B^j) collide |
| `MontgomeryModuli.NextLimbLoses` | tpl/sgx-pbc/arith/montfp.c:345 | so with a top limb B-1 some product is wrong from next limb 4 on with three limbs, from 2 on with four to six and from 1 on with seven or more |
| `MontgomeryModuli.ZeroLimbGivesRoom` | tpl/sgx-pbc/arith/montfp.c:345 | a next limb 0 followed by one below B-1 leaves the room of TopLimbGivesRoom |
| `Montgomery.ReduceRound` | tpl/sgx-pbc/arith/montfp.c:108-113 | one pass clears limb i and adds a multiple of p shifted by i limbs, up to the carry it returns |
| `Montgomery.MontReduce` | tpl/sgx-pbc/arith/montfp.c:102-120 | for every y below p*B^t the result is below p and x*B^t is congruent to y modulo p; the proof bounds the flag by 1 and shows the lower limbs cleared |
| `MontgomeryField.Decode` | tpl/sgx-pbc/arith/montfp.c:122-138 | the element a flag and limbs stand for is below p, zero exactly when the flag is 0, and otherwise times B^t congruent to the limbs |
| `MontgomeryField.DecodeUnique` | tpl/sgx-pbc/arith/montfp.c:122-138 | only one element below p fits given limbs |
| `MontgomeryField.Element.constructor` | tpl/sgx-pbc/arith/montfp.c:51-56 | a new element has flag 0 and its own limbs |
| `MontgomeryField.FpSetMpz` | tpl/sgx-pbc/arith/montfp.c:64-80 | stores z mod p for every integer z, flag 0 exactly for multiples of p |
| `MontgomeryField.FpSet` | tpl/sgx-pbc/arith/montfp.c:196-217 | copies the element, flag included, and its limbs unless it is zero; the target may be the source |
| `MontgomeryField.FpSet1` | tpl/sgx-pbc/arith/montfp.c:145-150 | the constant R stands for 1 |
| `MontgomeryField.ReduceSum` | tpl/sgx-pbc/arith/montfp.c:233-248 | a sum below 2p, with its overflow bit, is reduced by at most one subtraction and flagged zero exactly when it is p |
| `MontgomeryField.FpAdd` | tpl/sgx-pbc/arith/montfp.c:219-250 | (a + b) mod p for every aliasing of target and operands, with the flag invariant kept |
| `MontgomeryField.FpDouble` | tpl/sgx-pbc/arith/montfp.c:252-275 | 2a mod p, also in place |
| `MontgomeryField.FpNeg` | tpl/sgx-pbc/arith/montfp.c:296-304 | -a mod p, also in place |
| `MontgomeryField.FpSub` | tpl/sgx-pbc/arith/montfp.c:306-329 | (a - b) mod p for every aliasing, with the flag invariant kept |
| `MontgomeryField.FpMul` | tpl/sgx-pbc/arith/montfp.c:364-375 | a*b mod p for prime p; the flag set unconditionally is right because a product of nonzero elements is nonzero |
| `MontgomeryField.FpToMpz` | tpl/sgx-pbc/arith/montfp.c:122-138 | the plain value without leading zero limbs; the trimming loop ends because the value is not zero |
| `MontgomeryField.FpPowMpz` | tpl/sgx-pbc/arith/montfp.c:377-394 | a^op mod p for nonzero a; zero to every power, 0 included, is zero |
| `MontgomeryField.FpInvert` | tpl/sgx-pbc/arith/montfp.c:396-418 | for nonzero a the result times a is 1; R^3 restores the one factor R that inverting the stored form loses |
| `MontgomeryField.FpCmp` | tpl/sgx-pbc/arith/montfp.c:446-454 | the answer 0 coincides with equality exactly unless only b is zero and its stale limbs repeat those of a |
| `MontgomeryField.FpHalve` | tpl/sgx-pbc/arith/montfp.c:277-294 | the target is half the operand, and valid, if and only if the call is in place, the operand is zero or has an even lowest limb, or the target's flag was already 2 |
| `MontgomeryField.StaleComparison` | tpl/sgx-pbc/arith/montfp.c:446-454 | reached: 1 and a cleared 1 compare as equal |
| `MontgomeryField.HalveIntoFresh` | tpl/sgx-pbc/arith/montfp.c:277-294 | reached: halving an element with an odd low limb into a fresh target |
| `MontgomeryField.FieldInit` | tpl/sgx-pbc/arith/montfp.c:565-595 | for every odd prime of more than one word the constants are right, and the result multiplies like a field if and only if the modulus has no collision; what the limbs say of that for two limbs, three limbs and more |
| `MontgomeryRuns.PlainUnique` | tpl/sgx-pbc/arith/montfp.c:277-294 | halving and inversion modulo p have one result |
| `MontgomeryRuns.ExecuteCall` | tpl/sgx-pbc/arith/montfp.c:529-563 | every call of the field's table gives the plain result modulo p |
| `MontgomeryRuns.ExecuteAll` | tpl/sgx-pbc/arith/montfp.c:529-563 | after every legal program of calls over a bank of elements the bank decodes to the plain run modulo p, limbs below p and flag 0 exactly for zero |
| `Pell.StepReduced` | tpl/sgx-pbc/ecc/mnt.c:117-126 | from a reduced position every division is exact and the next position is reduced, with Q*Q' = D - P'^2 |
| `Pell.StepInjective` | tpl/sgx-pbc/ecc/mnt.c:117-126 | the step is injective on reduced positions |
| `Pell.FinalIff` | tpl/sgx-pbc/ecc/mnt.c:116 | the loop guard holds exactly in the position P = a0, Q = 1, d = 1 |
| `Pell.StartKey` | tpl/sgx-pbc/ecc/mnt.c:77-95 | the starting position is reduced, and the final position steps to it |
| `Pell.StartSound` | tpl/sgx-pbc/ecc/mnt.c:77-95 | the loop starts with the norms of its convergents as claimed |
| `Pell.NextSound` | tpl/sgx-pbc/ecc/mnt.c:117-138 | every pass keeps p0^2 - D*q0^2 = d*Q1, the mixed norm, the determinant and the signs, and the denominators do not shrink |
| `Pell.StepIsNew` | tpl/sgx-pbc/ecc/mnt.c:96-139 | termination: a step from a position that is not final reaches a position of the finite reduced set not visited before |
| `Pell.SquareFactorsExact` | tpl/sgx-pbc/ecc/mnt.c:40-48 | the list holds exactly the f whose square divides abs(N) |
| `Pell.FindSquareFactors` | tpl/sgx-pbc/ecc/mnt.c:40-48 | the loop builds that list |
| `Pell.AllRecordedSolve` | tpl/sgx-pbc/ecc/mnt.c:97-114 | every pair recorded on a sound path is positive and satisfies x^2 - D*y^2 = N |
| `Pell.RecordHits` | tpl/sgx-pbc/ecc/mnt.c:97-114 | one pass appends exactly the scaled convergents whose norm is N |
| `Pell.PathMinimal` | tpl/sgx-pbc/ecc/mnt.c:142-145 | no positive solution of x^2 - D*y^2 = 1 is smaller than the pair the loop ends with |
| `Pell.GeneralPell` | tpl/sgx-pbc/ecc/mnt.c:29-171 | for every positive non-square D the loop ends; (minx, miny) is the least positive solution for norm 1; the list is what the expansion's path records and every pair of it solves the equation for N |
| `PellSolutions.BetweenConvergents` | tpl/sgx-pbc/ecc/mnt.c:117-138 | for N^2 below D a solution that has reached one convergent and not the next is a multiple of the first |
| `PellSolutions.OnTheRun` | tpl/sgx-pbc/ecc/mnt.c:96-139 | so a positive solution that has not reached the minimal pair is a multiple of a convergent the loop meets |
| `PellSolutions.ListedOrdered` | tpl/sgx-pbc/ecc/mnt.c:97-114 | for N^2 below D the list of the routine is strictly increasing |
| `PellSolutions.SolutionsAreOrbit` | tpl/sgx-pbc/ecc/mnt.c:29-171 | for N^2 below D the positive solutions of x^2 - D*y^2 = N are exactly the listed ones composed with the minimal pair any number of times |
| `PellSolutions.OrbitIncreases` | tpl/sgx-pbc/ecc/mnt.c:310-335 | visited in the order of the searches, round by round through the list, the solutions increase strictly |
| `CmSearch.NextPrime` | tpl/sgx-pbc/ecc/mnt.c:254 | mpz_nextprime exists and is the next one: no prime in between |
| `CmSearch.StripSmallFactors` | tpl/sgx-pbc/ecc/mnt.c:243-266 | the loop finds h and r if and only if n = h*r with r prime and beyond every prime factor of h, all of them below 2^16; otherwise it gives up, also when the largest prime factor is repeated |
| `CmSearch.RepeatedLargest` | tpl/sgx-pbc/ecc/mnt.c:243-266 | it does give up on every n whose largest prime factor is repeated |
| `CmSearch.MntStep2` | tpl/sgx-pbc/ecc/mnt.c:202-286 | what is handed out has prime q = l^2+1, n = q + l or q - l by the residue of U, and n = h*r split as above; nothing is handed out only for a wrong residue, composite q or an n that does not split so |
| `CmSearch.MntMeans` | tpl/sgx-pbc/ecc/mnt.c:209-238 | n divides q^2 - q + 1 and 3(4q - t^2) = U^2 + 8 for every U of the right residue |
| `CmSearch.MntCmIff` | tpl/sgx-pbc/ecc/mnt.c:293-343 | handed-out parameters satisfy 4q - t^2 = D*V^2 if and only if the 32-bit product 3*D does not wrap |
| `CmSearch.MntWrapFails` | tpl/sgx-pbc/ecc/mnt.c:288-343 | reached: every type D search for D = 1431655963 first hands out q = 577, n = 601, for the recorded solution (73, 3) of x^2 - 593*y^2 = -8, and 4q - t^2 = 1779 is not D times a square |
| `CmSearch.FreemanStep2` | tpl/sgx-pbc/ecc/mnt.c:345-442 | what is handed out has q = 25x^4+25x^3+25x^2+10x+3 prime, trace 10x^2+5x+3 and n = h*r split as above; nothing is handed out only for composite q or an n that does not split so |
| `CmSearch.FreemanQ` | tpl/sgx-pbc/ecc/mnt.c:368-378 | the evaluation order of the code gives q = n + t - 1 |
| `CmSearch.FreemanOrder` | tpl/sgx-pbc/ecc/mnt.c:387-396 | the evaluation order of the code gives n = q - t + 1 |
| `CmSearch.FreemanOrderDivides` | tpl/sgx-pbc/ecc/mnt.c:368-396 | n divides q^4 - q^3 + q^2 - q + 1 |
| `CmSearch.FreemanResidueReached` | tpl/sgx-pbc/ecc/mnt.c:352-362 | the branch that dies is unreachable: every solution of x^2 - 15*D*y^2 = -20 has U equal to 5 or 10 modulo 15 |
| `CmSearch.FreemanCmIff` | tpl/sgx-pbc/ecc/mnt.c:354-364 | for every solution U the set built from it satisfies 4q - t^2 = D*V^2 for some V if and only if U is 5 modulo 15: otherwise the product of two such values would lie between neighbouring squares |
| `CmSearch.FreemanOtherClassFails` | tpl/sgx-pbc/ecc/mnt.c:345-442 | reached: every type G search for D = 203 first hands out the prime q = 8443 with n = 8261 = 11*751, for the recorded solution (55, 1), and 4q - t^2 = 283 is not 203 times a square |
| `PellSolutions.ComposeSolves` | tpl/sgx-pbc/ecc/mnt.c:318-333 | composing a solution with the minimal one gives a solution for the same N |
| `PellSolutions.ComposeGrows` | tpl/sgx-pbc/ecc/mnt.c:323-327 | and a larger one, which is why the search ends |
| `CmSearch.TryOne` | tpl/sgx-pbc/ecc/mnt.c:316-332 | one candidate: it is tried, the answer decides, and its successor replaces it, keeping the invariant of the round; the callback may answer the same set differently at different times |
| `CmSearch.SearchSolutions` | tpl/sgx-pbc/ecc/mnt.c:310-335 | the orbit of the solutions under composition is tried in order until the callback accepts or the next solution is too long, and not before; every set handed out on the way is good and all but the last were refused |
| `CmSearch.CmSearchD` | tpl/sgx-pbc/ecc/mnt.c:288-343 | the whole type D search: square 3*D gives nothing, otherwise every set handed out has q, r prime, h*r = n, n dividing q^2-q+1, and satisfies 4q - t^2 = D*V^2 if and only if 3*D does not wrap in 32 bits; the search ends for the stated reason and tries the whole orbit in order |
| `CmSearch.CmSearchG` | tpl/sgx-pbc/ecc/mnt.c:444-496 | the whole type G search: every set handed out has q, r prime, h*r = n, n dividing q^4-q^3+q^2-q+1, and satisfies 4q - t^2 = D*V^2 for some V if and only if the U it was tried with is 5 modulo 15; the callback may answer differently every time |
| `CmSearch.SearchTries` | tpl/sgx-pbc/ecc/mnt.c:310-335 | which solutions a search tries: when the callback accepts none and N^2 is below 3*D (15*D), every solution within the length limit is a member of the orbit numbered below t + n - 1, t being the number of solutions tried and n the length of the list, and it is tried if and only if its number is below t |
| `CmSearch.SearchStopsShort` | tpl/sgx-pbc/ecc/mnt.c:317-327 | reached: the search stops in the middle of a round; for D = 67 and 30 bits it hands out nothing and never tries the recorded, short enough solution (8549, 603) with q = 8122501, n = 8119651 |
| `CmSearch.WrappedSearch` | tpl/sgx-pbc/ecc/mnt.c:288-343 | the search run for D = 1431655963: the first set does not satisfy the equation, whatever the callback says |
| `CmSearch.OtherClassSearch` | tpl/sgx-pbc/ecc/mnt.c:444-496 | the search run for D = 203: the first set does not satisfy the equation, whatever the callback says |
| `CmSearch.StoppedSearch` | tpl/sgx-pbc/ecc/mnt.c:288-343 | the search run for D = 67 and 30 bits: nothing is handed out |
| `QuadraticField.FqMul` | tpl/sgx-pbc/arith/fieldquadratic.c:198-233 | the Karatsuba steps leave the schoolbook product of the old operands, for every aliasing |
| `QuadraticField.GeneratorSquared` | tpl/sgx-pbc/arith/fieldquadratic.c:198-233 | s^2 = N for that product |
| `QuadraticField.MulDistributes` | tpl/sgx-pbc/arith/fieldquadratic.c:198-233 | and it distributes over sums |
| `QuadraticField.FqSquare` | tpl/sgx-pbc/arith/fieldquadratic.c:249-269 | the square of the old operand, also in place |
| `QuadraticField.FqInvert` | tpl/sgx-pbc/arith/fieldquadratic.c:290-309 | for nonzero norm the result times the old operand is 1 |
| `QuadraticField.FiMul` | tpl/sgx-pbc/arith/fieldquadratic.c:425-457 | the product for s^2 = -1, for every aliasing |
| `QuadraticField.FiSquare` | tpl/sgx-pbc/arith/fieldquadratic.c:459-477 | (x+y)(x-y) and 2xy are the square for s^2 = -1 |
| `QuadraticField.FiInvert` | tpl/sgx-pbc/arith/fieldquadratic.c:479-496 | for nonzero norm the result times the old operand is 1; zero stays zero, whatever the inversion of its norm leaves |
| `QuadraticField.MulAssociates` | tpl/sgx-pbc/arith/fieldquadratic.c:198-233 | the product is associative |
| `QuadraticField.NormMultiplies` | tpl/sgx-pbc/arith/fieldquadratic.c:339-355 | the norm of a product is the product of the norms |
| `SquareRoots.IsSqrMeans` | tpl/sgx-pbc/arith/montfp.c:470-481 | the Legendre test says exactly whether a square root exists |
| `SquareRoots.Flip` | tpl/sgx-pbc/arith/field.c:692-699 | one pass keeps (a*g^-e) to the power (q-1)/2^i equal to 1, the bit being set exactly when that power is -1 |
| `SquareRoots.Tonelli` | tpl/sgx-pbc/arith/field.c:667-718 | for every element of F_p the result squares back to it if and only if it is a square, and of the two roots of a nonzero square it is the principal one: with p - 1 = 2^s*t and g the non-square, its t-th power is g^(t*j) for a j below 2^(s-1) |
| `SquareRoots.PrincipalUnique` | tpl/sgx-pbc/arith/field.c:667-718 | exactly one of the two roots of a nonzero square is principal |
| `SquareRoots.FqSqrt` | tpl/sgx-pbc/arith/fieldquadratic.c:357-393 | the result squares back to x + y*s if and only if, for y other than 0, the norm is a square, and, for y = 0, x is zero or x^t = g^(t*j) for an even j below 2^(s-1), with p - 1 = 2^s*t and g the non-square |
| `SquareRoots.AxisRightIff` | tpl/sgx-pbc/arith/fieldquadratic.c:357-393 | that condition on x says that x is a square and the principal root of its own square |
| `SquareRoots.AxisRightThree` | tpl/sgx-pbc/arith/fieldquadratic.c:357-393 | for p = 3 modulo 4 it says that x is a square |
| `SquareRoots.AxisRootMissed` | tpl/sgx-pbc/arith/fieldquadratic.c:357-393 | reached: in F_9 = F_3[s], s^2 = 2, the element 2 has the root s and the routine returns something else |
| `SquareRoots.SquareIffNorm` | tpl/sgx-pbc/arith/fieldquadratic.c:339-340 | x + y*s has a square root if and only if its norm has one in the base field |
| `SquareRoots.FqIsSqr` | tpl/sgx-pbc/arith/fieldquadratic.c:339-355 | the test by the norm decides whether a square root exists |
| `Residues.Euler` | tpl/sgx-pbc/arith/montfp.c:470-481 | Euler's criterion, proved by pairing x with a/x |
| `Residues.Fermat` | tpl/sgx-pbc/arith/field.c:686-690 | every nonzero residue to the power p-1 is 1 |
| `Powering.BuildPowWindow` | tpl/sgx-pbc/arith/field.c:29-51 | entry s of the window is the s-th power |
| `Powering.PowWind` | tpl/sgx-pbc/arith/field.c:63-111 | the sliding window gives the n-th power for every n and every window size, every index being in the window |
| `Powering.ReadBit` | tpl/sgx-pbc/arith/field.c:87-107 | reading a bit keeps result exponent and pending word together equal to the bits read |
| `Powering.PowMpz` | tpl/sgx-pbc/arith/field.c:113-126 | the n-th power for every n, 0 included |
| `Powering.Pow2Mpz` | tpl/sgx-pbc/arith/field.c:153-189 | a1^n1 * a2^n2 in a commutative monoid |
| `Powering.Pow3Mpz` | tpl/sgx-pbc/arith/field.c:191-241 | a1^n1 * a2^n2 * a3^n3 in a commutative monoid |
| `Powering.BuildBaseTable` | tpl/sgx-pbc/arith/field.c:250-286 | row i of the table is the window of the 2^(k*i)-th power |
| `Powering.ReadWord` | tpl/sgx-pbc/arith/field.c:317-320 | the word of a row is the k bits of n at its place |
| `Powering.PowBaseTable` | tpl/sgx-pbc/arith/field.c:288-329 | every row and word index is in range; the result is a^power when power is at most the order or a^order is 1 |
| `Lucas.LadderStep` | tpl/sgx-pbc/ecc/a_param.c:252-262 | for norm one V_2m = V_m^2 - 2 and V_(2m+1) = V_m*V_(m+1) - P |
| `Lucas.Ladder` | tpl/sgx-pbc/ecc/a_param.c:243-264 | the ladder leaves V at the cofactor with its lowest bit dropped, and the next term |
| `Lucas.RecoverImaginary` | tpl/sgx-pbc/ecc/a_param.c:271-284 | dividing the numerator by P^2 - 4 and multiplying by the second coordinate gives that of the power |
| `Lucas.LucasOdd` | tpl/sgx-pbc/ecc/a_param.c:225-285 | for every norm-one element the power to the cofactor with its lowest bit cleared, hence the cofactor-th power if and only if the cofactor is even or the element is 1; a real element divides by zero, and whatever that leaves is multiplied by zero; a real operand that is only the first coordinate of such an element gives the first coordinate of the power |
| `Lucas.LucasEven` | tpl/sgx-pbc/ecc/d_param.c:436-500 | for every norm-one element the power to the cofactor with its lowest bit set, hence the cofactor-th power if and only if the cofactor is odd or the element is 1 |
| `Curve.GroupAddOnCurve` | tpl/sgx-pbc/ecc/curve.c:153-207 | the sum of two points of the curve, infinity, doubling and inverses included, is a point of the curve |
| `Curve.GroupAddMeans` | tpl/sgx-pbc/ecc/curve.c:153-207 | what the sum is: infinity is neutral, only opposite points add up to infinity, and otherwise a line through both points (tangent where they agree) meets the curve in their abscissas and that of the sum, each as often as listed, and passes through the reflected sum |
| `Curve.DoubleNoCheck` | tpl/sgx-pbc/ecc/curve.c:102-137 | doubling in place or not, for a finite point with nonzero ordinate |
| `Curve.CurveSet` | tpl/sgx-pbc/ecc/curve.c:91-100 | copies a point, infinity included |
| `Curve.CurveDouble` | tpl/sgx-pbc/ecc/curve.c:139-151 | the double of every point, for every aliasing |
| `Curve.CurveMul` | tpl/sgx-pbc/ecc/curve.c:153-207 | the sum of any two points, for every aliasing |
| `Curve.Backward` | tpl/sgx-pbc/ecc/curve.c:242-247 | the backward pass leaves the inverse of each single denominator and goes on with the inverse of the shorter prefix |
| `Curve.InverseOrdinates` | tpl/sgx-pbc/ecc/curve.c:235-248 | with one inversion table[i] ends as the inverse of 2*y_i |
| `Curve.InverseDifferences` | tpl/sgx-pbc/ecc/curve.c:297-314 | with one inversion table[i] ends as the inverse of the difference of abscissas |
| `Curve.MultiDouble` | tpl/sgx-pbc/ecc/curve.c:209-281 | for finite points with nonzero ordinates every target not flagged infinite holds what a single doubling gives; a target flagged infinite beforehand is skipped |
| `Curve.MultiAdd` | tpl/sgx-pbc/ecc/curve.c:283-365 | for finite pairs with different abscissas every target holds what a single addition gives |
| `FrobeniusTrace.TraceN` | tpl/sgx-pbc/ecc/curve.c:941-966 | the loop computes the recurrence; degrees below one give the trace itself |
| `FrobeniusTrace.CurveOrderExtn` | tpl/sgx-pbc/ecc/curve.c:968-981 | q^k + 1 minus the k-th trace |
| `FrobeniusTrace.TraceSum` | tpl/sgx-pbc/ecc/curve.c:954-960 | T(m+k) + q^k*T(m-k) = T(m)*T(k) |
| `FrobeniusTrace.Composition` | tpl/sgx-pbc/ecc/curve.c:941-966 | the trace of an extension of an extension is the trace of the whole extension |
| `FrobeniusTrace.OrderComposes` | tpl/sgx-pbc/ecc/curve.c:968-981 | so is its order |
| `FrobeniusTrace.OrderDivides` | tpl/sgx-pbc/ecc/curve.c:968-981 | the order over F_q divides the order over every extension |
| `FrobeniusTrace.TowerOrderDivides` | tpl/sgx-pbc/ecc/curve.c:968-981 | the order over degree k divides the order over degree j*k |
| `FrobeniusTrace.Discriminant` | tpl/sgx-pbc/ecc/curve.c:941-966 | the discriminant of every extension is the curve's times a square |
| `FrobeniusTrace.HasseInherited` | tpl/sgx-pbc/ecc/curve.c:941-966 | Hasse's bound passes to every extension |
| `MillerLoop.ComputeTangent` | tpl/sgx-pbc/ecc/a_param.c:63-86 | the coefficients of the tangent scaled by 2y |
| `MillerLoop.TangentMeets` | tpl/sgx-pbc/ecc/a_param.c:63-86 | that line, never vertical, passes through the point and through minus its double |
| `MillerLoop.ComputeTangentProj` | tpl/sgx-pbc/ecc/a_param.c:88-114 | in weighted coordinates the coefficients are those of the affine tangent times z^6 |
| `MillerLoop.ComputeLine` | tpl/sgx-pbc/ecc/a_param.c:116-132 | the coefficients of the chord scaled by the difference of abscissas |
| `MillerLoop.ChordMeets` | tpl/sgx-pbc/ecc/a_param.c:116-132 | the chord passes through both points and through minus their sum; its coefficients vanish exactly when the points agree |
| `MillerLoop.EvalLine` | tpl/sgx-pbc/ecc/a_param.c:307-317 | the value of the line at the image (-x, iy) of the second point, by EvalAtImage |
| `MillerLoop.ImageOnCurve` | tpl/sgx-pbc/ecc/a_param.c:312-316 | (-x, iy) is a point of y^2 = x^3 + x over F_q[i] for every point (x, y) of the curve |
| `MillerLoop.EvalAtImage` | tpl/sgx-pbc/ecc/a_param.c:312-316 | the two products and the difference are a*X + b*Y + c computed in F_q[i] at that image |
| `MillerLoop.ProjDouble` | tpl/sgx-pbc/ecc/a_param.c:1083-1122 | from coordinates of a point with nonzero ordinate the macro computes coordinates of its double, z nonzero |
| `FinalPower.UnitNormOne` | tpl/sgx-pbc/ecc/a_param.c:292-297 | conj(f)/f has norm one for every nonzero f and, for f off the axes, a nonzero second coordinate |
| `FinalPower.UnitForgetsScale` | tpl/sgx-pbc/ecc/a_param.c:292-297 | conj(f)/f does not change when f is multiplied by a nonzero element of F_q, f zero included |
| `Frobenius.FrobeniusConjugates` | tpl/sgx-pbc/ecc/a_param.c:292-297 | for a prime p and a non-square N the p-th power in F_p[s], s^2 = N, is conjugation |
| `FinalPower.UnitIsPower` | tpl/sgx-pbc/ecc/a_param.c:292-297 | conj(f)/f is the power q-1 of f |
| `FinalPower.HasIIff` | tpl/sgx-pbc/ecc/a_param.c:1553-1557 | -1 is not a square, and F_q[i] a field, exactly for q = 3 modulo 4, as the generated q = h*r - 1 with 12 dividing h is |
| `FinalPower.TateExp` | tpl/sgx-pbc/ecc/a_param.c:287-305 | for every nonzero f the power (q-1)*cofactor of f, which the comment calls simpler but slower; for f = 0 a power of the imaginary unit, whatever the inversions of zero leave |
| `FinalPower.PoweredZero` | tpl/sgx-pbc/ecc/a_param.c:287-305 | that power is 1 for a cofactor divisible by 4 and -1 otherwise |
| `FinalPower.PoweredOrder` | tpl/sgx-pbc/ecc/a_param.c:287-305 | with cofactor*r = q + 1 the result to the power r is 1 |
| `TypeAPairing.ToAffine` | tpl/sgx-pbc/ecc/a_param.c:1069-1081 | the macro gives the affine coordinates of the same point and resets z |
| `TypeAPairing.ProjFactor` | tpl/sgx-pbc/ecc/a_param.c:1124-1127 | each projective step multiplies the Miller value by a further nonzero element of F_q only |
| `TypeAPairing.ProjLoop` | tpl/sgx-pbc/ecc/a_param.c:1155-1176 | the projective loop keeps the affine Miller value up to a nonzero factor from F_q, and coordinates of the doubled point |
| `TypeAPairing.AffineLoop` | tpl/sgx-pbc/ecc/a_param.c:1242-1262 | the affine loop computes the Miller function and the doubled point |
| `TypeAPairing.MillerIsProduct` | tpl/sgx-pbc/ecc/a_param.c:1242-1262 | the Miller value of 2^n is the product of the tangent values number k to the powers 2^(n-1-k) |
| `TypeAPairing.ClosingLineMeets` | tpl/sgx-pbc/ecc/a_param.c:1250-1278 | the closing line passes through 2^exp2 P, through 2^exp1 P for sign1 not negative and through its reflection for sign1 negative, and through minus the sum of the two; its coefficients vanish only when they agree |
| `TypeAPairing.TotalIsProduct` | tpl/sgx-pbc/ecc/a_param.c:1242-1278 | the value before the final powering is the product of the tangent values number k to the powers 2^(exp2-1-k), with 2^(exp1-1-k) added or, for sign1 negative, subtracted, and of the closing value |
| `TypeAPairing.DivisorBalances` | tpl/sgx-pbc/ecc/a_param.c:1242-1278 | with these powers the divisor of the product, verticals left out, is 2^exp2 + 2^exp1 times P, or 2^exp2 - 2^exp1 times P for sign1 negative: every other multiple of P cancels |
| `TypeAPairing.PairingIsPower` | tpl/sgx-pbc/ecc/a_param.c:1201-1280 | Pairing(P, Q) is the power (q-1)*cofactor of that product, and its r-th power is 1 for cofactor*r = q + 1 |
| `TypeAPairing.PairingAffine` | tpl/sgx-pbc/ecc/a_param.c:1201-1280 | returns Pairing(P, Q), also for Miller values that are zero or on an axis; what that is, PairingIsPower says |
| `TypeAPairing.PairingProj` | tpl/sgx-pbc/ecc/a_param.c:1053-1199 | returns the same Pairing(P, Q) |
| `TypeAPairing.PpInit` | tpl/sgx-pbc/ecc/a_param.c:151-209 | stores the tangents of the doublings and the closing line of the first point |
| `TypeAPairing.PpApply` | tpl/sgx-pbc/ecc/a_param.c:319-362 | on lines so prepared, returns the same Pairing(P, Q) |
| `Polynomials.RemainderUnique` | tpl/sgx-pbc/arith/poly.c:406-452 | below the degree of the modulus, congruence modulo it is equality of coefficients |
| `PolynomialDivision.Strip` | tpl/sgx-pbc/arith/poly.c:82-98 | removes exactly the leading zeros |
| `PolynomialDivision.PolyMul` | tpl/sgx-pbc/arith/poly.c:296-330 | the product, normal, of the length the degrees add up to |
| `PolynomialDivision.PolySub` | tpl/sgx-pbc/arith/poly.c:220-246 | the difference, normal |
| `PolynomialDivision.PolyConstMul` | tpl/sgx-pbc/arith/poly.c:1453-1460 | the multiple by a constant, normal |
| `PolynomialDivision.DivStep` | tpl/sgx-pbc/arith/poly.c:434-443 | one pass keeps a = q*b + r and clears one more leading coefficient |
| `PolynomialDivision.PolyDiv` | tpl/sgx-pbc/arith/poly.c:406-452 | dies exactly on division by zero; otherwise a = q*b + r modulo p with r shorter than b |
| `PolynomialDivision.EuclideanStep` | tpl/sgx-pbc/arith/poly.c:472-481 | one pass keeps r_i congruent to b_i*f modulo m and the sum of the lengths of b1 and r0 |
| `PolynomialDivision.PolyInvert` | tpl/sgx-pbc/arith/poly.c:454-492 | for a nonzero polynomial below an irreducible modulus a true inverse, shorter than the modulus |
| `PolynomialBezout.BezoutExists` | tpl/sgx-pbc/arith/poly.c:454-492 | such a polynomial and the modulus generate 1 |
| `PolynomialRing.ComputeXPowers` | tpl/sgx-pbc/arith/poly.c:1301-1333 | for every monic modulus of degree n entry i is x^(n+i) reduced |
| `PolynomialRing.Truncate` | tpl/sgx-pbc/arith/poly.c:494-508 | the first n coefficients, zero padded |
| `PolynomialRing.PolymodInvert` | tpl/sgx-pbc/arith/poly.c:521-536 | a true inverse for every nonzero element modulo an irreducible polynomial, also in place; truncating loses nothing |
| `PolynomialRing.ProductUnique` | tpl/sgx-pbc/arith/poly.c:1004-1047 | reduced products are unique, so all multiplication routines agree |
| `PolynomialRing.ProductIsRemainder` | tpl/sgx-pbc/arith/poly.c:1004-1047 | a reduced product is the remainder long division leaves of the full product |
| `PolynomialProducts.MultiplyOut` | tpl/sgx-pbc/arith/poly.c:1024-1034 | the double loop leaves the full product in its lower and higher halves |
| `PolynomialProducts.FoldStep` | tpl/sgx-pbc/arith/poly.c:1036-1040 | adding a high coefficient times the stored power of x keeps the residue class |
| `PolynomialProducts.PolymodMul` | tpl/sgx-pbc/arith/poly.c:1004-1047 | the reduced product, the result being allowed to be an operand |
| `PolynomialProducts.KarPoly2` | tpl/sgx-pbc/arith/poly.c:869-907 | the five coefficients are those of the product, also when the target is an operand |
| `PolynomialProducts.PolymodMulDegree3` | tpl/sgx-pbc/arith/poly.c:909-930 | the reduced product for degree 3, the result being allowed to be an operand |
| `PolynomialProducts.CombinedIsProduct` | tpl/sgx-pbc/arith/poly.c:951-985 | the three half products combine to the product of six coefficients by six |
| `PolynomialProducts.PolymodMulDegree6` | tpl/sgx-pbc/arith/poly.c:932-1002 | the reduced product for degree 6, the result being allowed to be an operand |
| `PolynomialProducts.SquareOut` | tpl/sgx-pbc/arith/poly.c:1111-1130 | squares and doubled cross terms add up to the full square |
| `PolynomialProducts.PolymodSquare` | tpl/sgx-pbc/arith/poly.c:1091-1143 | the reduced square, also in place |
| `PolynomialProducts.PolymodSquareDegree3` | tpl/sgx-pbc/arith/poly.c:1049-1089 | the reduced square for degree 3, also in place |
| `TernaryWords.AddWord` | tpl/sgx-pbc/arith/ternary_extension_field.c:156-159 | at every bit the word operations add digits modulo 3 |
| `TernaryWords.AddClean` | tpl/sgx-pbc/arith/ternary_extension_field.c:156-159 | and never leave both bits of a position set |
| `TernaryElements.Gf3mAdd` | tpl/sgx-pbc/arith/ternary_extension_field.c:150-161 | the word sum of the old operands at every index, for every aliasing |
| `TernaryElements.SumDigits` | tpl/sgx-pbc/arith/ternary_extension_field.c:150-161 | the word sum is the digitwise sum modulo 3 and keeps the encoding sane |
| `TernaryElements.Gf3mSub` | tpl/sgx-pbc/arith/ternary_extension_field.c:163-174 | the word difference of the old operands, for every aliasing |
| `TernaryElements.DifferenceDigits` | tpl/sgx-pbc/arith/ternary_extension_field.c:163-174 | the word difference is the digitwise difference modulo 3 and keeps the encoding sane |
| `TernaryElements.Gf3mNeg` | tpl/sgx-pbc/arith/ternary_extension_field.c:228-246 | the two halves change places, in place by exclusive ors |
| `TernaryElements.SwapDigits` | tpl/sgx-pbc/arith/ternary_extension_field.c:234-246 | that negates every digit |
| `TernaryElements.Gf3mShiftDown` | tpl/sgx-pbc/arith/ternary_extension_field.c:94-112 | each half shifted one bit down through all its words |
| `TernaryElements.DownDigits` | tpl/sgx-pbc/arith/ternary_extension_field.c:94-112 | digit i becomes the old digit i+1 |
| `TernaryElements.Gf3mShiftUp` | tpl/sgx-pbc/arith/ternary_extension_field.c:114-130 | each half shifted one bit up through all its words |
| `TernaryElements.UpDigits` | tpl/sgx-pbc/arith/ternary_extension_field.c:114-130 | digit i becomes the old digit i-1 |
| `TernaryElements.Gf3mZero` | tpl/sgx-pbc/arith/ternary_extension_field.c:75-78 | clears all words |
| `TernaryElements.Gf3mSet` | tpl/sgx-pbc/arith/ternary_extension_field.c:140-148 | sets one digit that was zero and no other |
| `TernaryField.FieldInit` | tpl/sgx-pbc/arith/ternary_extension_field.c:477-491 | the stored modulus is x^m + x^t + 2, with room for its top digit |
| `TernaryField.Gf3mF1` | tpl/sgx-pbc/arith/ternary_extension_field.c:275-287 | every digit times n modulo 3 |
| `TernaryField.Gf3mF2` | tpl/sgx-pbc/arith/ternary_extension_field.c:289-298 | multiplication by x modulo the trinomial, staying below x^m |
| `TernaryField.Gf3mMult` | tpl/sgx-pbc/arith/ternary_extension_field.c:300-321 | the product modulo x^m + x^t + 2, the result being allowed to be an operand |
| `TernaryField.Gf3mReduct` | tpl/sgx-pbc/arith/ternary_extension_field.c:248-273 | the result is below x^m and congruent to the operand modulo the trinomial |
| `TernaryField.CubeIsSpread` | tpl/sgx-pbc/arith/ternary_extension_field.c:323-338 | over GF(3) the cube of every polynomial is its value at x^3 |
| `TernaryField.Gf3mCubic` | tpl/sgx-pbc/arith/ternary_extension_field.c:323-344 | the cube modulo the trinomial, also in place |
| `TernaryField.CubicIsProduct` | tpl/sgx-pbc/arith/ternary_extension_field.c:323-344 | gf3m_cubic gives the same digits as x*(x*x) by gf3m_mult |
| `TernaryField.DigitsUnique` | tpl/sgx-pbc/arith/ternary_extension_field.c:300-344 | congruent elements below x^m have the same digits |
| `TernaryInverse.StepShift` | tpl/sgx-pbc/arith/ternary_extension_field.c:387-391 | the pass with r_m = 0 keeps the invariant, one more x pending |
| `TernaryInverse.StepReduce` | tpl/sgx-pbc/arith/ternary_extension_field.c:393-399 | S := x(S - qR), V := V - qU keep the links to a |
| `TernaryInverse.StepSwap` | tpl/sgx-pbc/arith/ternary_extension_field.c:400-404 | the pass with d = 0 re-establishes the invariant with the roles exchanged |
| `TernaryInverse.StepDivide` | tpl/sgx-pbc/arith/ternary_extension_field.c:405-413 | the pass with d > 0 re-establishes the invariant after dividing U by x |
| `TernaryInverse.StateEnd` | tpl/sgx-pbc/arith/ternary_extension_field.c:384-418 | after 2m passes nothing is pending, R is a single nonzero digit at x^m, and a*U is congruent to that digit |
| `TernaryInverse.Gf3mInvert` | tpl/sgx-pbc/arith/ternary_extension_field.c:359-428 | for every nonzero a modulo an irreducible trinomial the result times a is 1, also in place |
| `TernaryTower.WordsMultiply` | tpl/sgx-pbc/arith/ternary_extension_field.c:300-321 | the product on words denotes the product on digits |
| `TernaryTower.WordsCube` | tpl/sgx-pbc/arith/ternary_extension_field.c:323-344 | the cube on words denotes the cube on digits |
| `TernaryTower.Rep2Product` | tpl/sgx-pbc/arith/ternary_extension_field.c:612-639 | the Karatsuba product represents the product with s^2 = -1 |
| `TernaryTower.Rep6Product` | tpl/sgx-pbc/arith/ternary_extension_field.c:779-837 | the product by six multiplications represents the product with p^3 = p + 1 |
| `TernaryTower.MultAssociates` | tpl/sgx-pbc/arith/ternary_extension_field.c:779-837 | gf33m_mult is associative |
| `TernaryTower.CubicMultiplies` | tpl/sgx-pbc/arith/ternary_extension_field.c:839-863 | gf33m_cubic of a product is the product of the cubes |
| `TernaryCubes.CubicIsCube` | tpl/sgx-pbc/arith/ternary_extension_field.c:839-863 | gf33m_cubic(a) = a*(a*a) by gf33m_mult |
| `EtaPairing.ClosedForm` | tpl/sgx-pbc/ecc/eta_T_3.c:222-258 | algorithm4a computes the cube of -t^2 + u*s - t*p - p^2 |
| `EtaPairing.DoubleRound` | tpl/sgx-pbc/ecc/eta_T_3.c:326-357 | one pass of algorithm5 is two passes of algorithm4, on all inputs |
| `EtaPairing.Algorithm4` | tpl/sgx-pbc/ecc/eta_T_3.c:378-479 | (m-1)/2 single rounds from the common start, whose value LoopIsProduct writes out |
| `EtaPairing.Algorithm5` | tpl/sgx-pbc/ecc/eta_T_3.c:260-376 | twice (m-1)/4 single rounds, hence algorithm4's value whenever (m-1)/2 is even |
| `EtaGeometry.TowerRelations` | tpl/sgx-pbc/ecc/eta_T_3.c:431-436 | s^2 = -1 and p^3 = p + 1 for the products of the tower |
| `EtaGeometry.PsiIs` | tpl/sgx-pbc/ecc/eta_T_3.c:431-436 | the image is p - x and y times s in the tower |
| `EtaGeometry.PsiOnCurve` | tpl/sgx-pbc/ecc/eta_T_3.c:431-436 | psi(x, y) = (p - x, y*s) lies on y^2 = x^3 - x + 1 over GF(3^6m) for every point of the curve |
| `EtaGeometry.LineMeets` | tpl/sgx-pbc/ecc/eta_T_3.c:313-318 | the line of the first factor passes through (x, y) and (x - 1, -y) |
| `EtaGeometry.ConicVanishes` | tpl/sgx-pbc/ecc/eta_T_3.c:319-324 | the function behind the second factor and every round vanishes at the point whose cube is (x, y) and at minus the triple of that point |
| `EtaGeometry.ConicAtReal` | tpl/sgx-pbc/ecc/eta_T_3.c:319-324 | at points of the base field that function has the values the two rows around speak of |
| `EtaGeometry.ConicAtPsi` | tpl/sgx-pbc/ecc/eta_T_3.c:319-324 | at psi(x, y) it is the element -t^2 + u*s - t*p - p^2 the code builds |
| `EtaGeometry.LineAtPsi` | tpl/sgx-pbc/ecc/eta_T_3.c:313-318 | and the line is the first factor the code builds |
| `EtaGeometry.ConicDivisor` | tpl/sgx-pbc/ecc/eta_T_3.c:319-324 | with its reflection it meets the curve where X^3 = x, three times, and where X = x^3 - 1, and nowhere else |
| `EtaGeometry.TripleIsSum` | tpl/sgx-pbc/ecc/eta_T_3.c:334-339 | (x^9 - 1, -y^9) is Q + Q + Q by the chord and tangent rule, for every point Q of the curve |
| `EtaGeometry.StartMeans` | tpl/sgx-pbc/ecc/eta_T_3.c:285-325 | both loops start from the cubed second point and the product of the line and of the conic at its image under psi, for the first point with its ordinate signed; the line negated for m congruent to 7 or 11 modulo 12 |
| `EtaGeometry.SignedByOrder` | tpl/sgx-pbc/ecc/eta_T_3.c:285-290 | that sign is minus exactly when the group order exceeds 3^m + 1 |
| `EtaGeometry.RoundMeans` | tpl/sgx-pbc/ecc/eta_T_3.c:447-462 | one round triples the point and multiplies the cube of the value by the conic at psi of the new point |
| `EtaGeometry.LoopIsProduct` | tpl/sgx-pbc/ecc/eta_T_3.c:378-479 | after n rounds the value is the first line to the power 3^n times the conics at psi of 3^i times the cubed point to the powers 3^(n-i), i from 0 to n |
| `EtaGeometry.FullCircleAt` | tpl/sgx-pbc/ecc/eta_T_3.c:440-462 | after (m-1)/2 rounds the point has come full circle: it is the second point, its abscissa less (m-1)/2 and its ordinate with alternating sign |
| `TernaryFermat.InverseExists` | tpl/sgx-pbc/arith/ternary_extension_field.c:359-428 | modulo an irreducible trinomial every nonzero element of GF(3^m) has an inverse |
| `TernaryFermat.Fermat` | tpl/sgx-pbc/arith/ternary_extension_field.c:513-519 | the field order is 3^m: the power 3^m of every element is the element itself |
| `TernaryFrobenius.IterateIsPower` | tpl/sgx-pbc/arith/ternary_extension_field.c:839-863 | k calls of gf33m_cubic compute the power 3^k |
| `TernaryFrobenius.ConjugateByCubing` | tpl/sgx-pbc/arith/ternary_extension_field.c:839-863 | for odd m, 3m cubings negate exactly the parts with s: the power 3^(3m) is conjugation |
| `CubicExtension.WordsInvert` | tpl/sgx-pbc/arith/ternary_extension_field.c:359-428 | what the word inversion leaves denotes the inverse that the tower uses |
| `CubicExtension.Mult3Is` | tpl/sgx-pbc/arith/ternary_extension_field.c:779-837 | over GF(3^m) the six products give the plain product with p^3 = p + 1 |
| `CubicExtension.DeltaNonzero` | tpl/sgx-pbc/arith/ternary_extension_field.c:866-923 | the norm that gf33m_invert inverts is nonzero for every nonzero element, when 3 does not divide m |
| `CubicExtension.Invert3Is` | tpl/sgx-pbc/arith/ternary_extension_field.c:866-923 | every nonzero element times what gf33m_invert returns is 1 |
| `SexticExtension.ConjTimes` | tpl/sgx-pbc/ecc/eta_T_3.c:503-508 | v0^2 + v1^2 is u times its conjugate |
| `SexticExtension.NormNonzero` | tpl/sgx-pbc/ecc/eta_T_3.c:503-508 | it is nonzero for every nonzero u, when m is prime to 6, so algorithm6 inverts no zero |
| `EtaFinalPower.Algorithm6` | tpl/sgx-pbc/ecc/eta_T_3.c:481-527 | for every u the result times u is the conjugate of u, and it is the power 3^(3m) - 1; for nonzero u it has norm 1 |
| `EtaFinalPower.SeventhIff` | tpl/sgx-pbc/ecc/eta_T_3.c:529-636 | the nine products give the power 3^m + 1 if and only if u has norm 1, in both branches |
| `EtaFinalPower.SeventhFails` | tpl/sgx-pbc/ecc/eta_T_3.c:529-636 | it does fail as a routine: the element 1 + s has norm 2; algorithm8 only passes elements of norm 1 |
| `EtaFinalPower.Algorithm7` | tpl/sgx-pbc/ecc/eta_T_3.c:529-636 | the routine computes u^(3^m+1) exactly for u with u*conj(u) = 1 |
| `EtaFinalPower.FullExponent` | tpl/sgx-pbc/ecc/eta_T_3.c:638-639 | the three factors of the exponent times the group order 3^m + 1 plus or minus 3^((m+1)/2) are 3^(6m) - 1 |
| `EtaFinalPower.Algorithm8` | tpl/sgx-pbc/ecc/eta_T_3.c:638-665 | the result is u to the power (3^(3m)-1)(3^m+1)(3^m+1 -/+ 3^((m+1)/2)), the sign by m modulo 12, and its order divides the group order |
| `TernaryPoints.SqrtIff` | tpl/sgx-pbc/arith/ternary_extension_field.c:430-439 | for odd m, gf3m_sqrt squares back to its argument if and only if the argument is a square |
| `TernaryPoints.PointRandom` | tpl/sgx-pbc/ecc/eta_T_3.c:89-111 | the loop ends at the first nonzero x with a point; its result is on the curve if and only if the first candidate is not 0 (or the old ordinate happens to square to 1), since a first 0 leaves the two compared elements equal |
| `TernaryPoints.PointRandomFails` | tpl/sgx-pbc/ecc/eta_T_3.c:97-100 | reached: a first candidate 0 in a new element gives (0, 0), which is not on the curve |
| `TernaryPoints.PointAdd` | tpl/sgx-pbc/ecc/eta_T_3.c:120-177 | the result is on the curve and is the sum by the chord and tangent rule; the code never divides by zero |
| `TernaryPoints.SumUnique` | tpl/sgx-pbc/ecc/eta_T_3.c:120-177 | the rule determines the sum |
| `TernaryPoints.SumCommutes` | tpl/sgx-pbc/ecc/eta_T_3.c:120-177 | and does not depend on the order of the points |
| `TernaryPoints.OppositeOnCurve` | tpl/sgx-pbc/ecc/eta_T_3.c:179-186 | point_invert stays on the curve, is its own inverse, and a point plus its opposite is the point at infinity |
| `EtaTPairing.OrdinateNonzero` | tpl/sgx-pbc/ecc/eta_T_3.c:30-31 | no point of y^2 = x^3 - x + 1 has ordinate 0 when 3 does not divide m |
| `EtaTPairing.LoopNonzero` | tpl/sgx-pbc/ecc/eta_T_3.c:378-479 | neither loop returns 0 for points of the curve, so the final powering inverts no zero |
| `EtaTPairing.EtaTPairing` | tpl/sgx-pbc/ecc/eta_T_3.c:667-681 | the pairing: 1 for a point at infinity, otherwise the final power of algorithm4's value whichever loop is chosen; its order divides the group order |
| `EtaParameters.GeneratedOrders` | tpl/sgx-pbc/ecc/eta_T_3.c:769-834 | helper fact on the table of constants: in every row m is odd and prime to 3 and n*n2 is the group order of the final powering |

## Left out

- Primality tests, `mpz_nextprime`, `mpz_invert`, `mpz_powm`, `mpz_sqrt` and `mpz_export` have exact mathematical contracts; their internals, and the error probability of `mpz_probab_prime_p`, are not modelled.
- Memory management, element initialisation and clearing, dispatch tables, printing, hashing and random choices.
- `fp_set_si` (the body of `fp_set_mpz` again), `fp_from_bytes`, `fp_to_bytes`, `fp_is1`, `fp_is0`.
- MontgomeryField.FpInvert: only for nonzero elements, as the comment above the routine requires; what `mpz_invert` leaves behind for zero is not modelled.
- MontgomeryField.FieldInit: the assertion that the modulus exceeds one word is a precondition.
- MontgomeryField.FieldInit: the exact condition on the modulus is its having no collision; it is put in terms of the limbs except for two limbs with the low one B/2 + k, k a prime with 2k^2 above B and k at most B/4, and for four limbs or more with a top limb B-1 and (B+1)*p above B^(t+1) by less than the excess of ExcessCrowds.
- Montgomery.MontMul: the modulus limbs are a value of the field's parameters, not an array that could alias the target.
- PellSolutions.SolutionsAreOrbit: for N^2 below D; for larger N the list need not reach every class of solutions.
- CmSearch.SearchSolutions: the loop that the two searches contain twice is modelled once; the callback is the sequence of its answers.
- CmSearch.SearchStopsShort: that 8122501 and 8119651 are prime is not proved.
- CmSearch.StripSmallFactors: the factor-stripping loop both candidate routines contain is modelled once.
- Curve.MultiDouble: points at infinity and zero ordinates make the shared prefix product zero and are excluded; targets are pairwise distinct and no later source.
- Curve.MultiAdd: pairs with equal abscissas or infinite points make the shared prefix product zero and are excluded.
- Curve.InverseOrdinates: the prefix loops of the two batch routines are methods of their own.
- Associativity of the group law, bilinearity and non-degeneracy of the pairings.
- TypeAPairing.PairingAffine: the first point is finite with nonzero ordinates along its doublings, -1 is not a square in F_q, the cofactor is even and exp1 is at most exp2; otherwise the doubling routine divides by zero.
- TypeAPairing.PairingProj: the same conditions.
- TypeAPairing.PpApply: the same conditions.
- Type A elliptic nets and products of pairings; pairings of the other types, whose projective loops set the ordinate from the abscissa.
- The coefficient field of polynomials is F_p; towers of polynomial rings are not modelled.
- `poly_gcd`, irreducibility tests, root finding, random polynomials.
- PolynomialRing.ComputeXPowers: a modulus that is not monic, for which the table is wrong.
- PolynomialProducts.SquareOut: the two inner loops that differ in the target array share one helper.
- TernaryInverse.Gf3mInvert: exchanging the buffers and multiplying by x are done in the other order, on renamed buffers.
- TernaryTower.Gf33mMult: this and the other routines of the tower are functions on values, since the code computes into temporaries and copies; aliasing is not modelled there.
- CubicExtension.Invert3: inversion of the cubic extension over GF(3^m), where the pairing uses it; over GF(3^2m) the same routine is not modelled.
- EtaFinalPower.Algorithm8: not for zero, which the loops never return for points of the curve; what an inversion of zero leaves is an input.
- EtaFinalPower.Algorithm7: on values, like the tower below it; the copies through temporaries that make `algorithm7(v, v)` safe are not modelled.
- TernaryPoints.PointRandom: the closing multiplication by the cofactor is not part of this model; the random elements are an input.
- TernaryPoints.PointAdd: on values; the code writes the target's abscissa before it reads an ordinate, which is safe when target and operand are the same point, but not modelled.
- EtaParameters.GeneratedOrders: that the generated trinomials are irreducible and the generated n prime is not proved; irreducibility is a hypothesis wherever a field is needed.
