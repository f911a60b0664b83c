# Verified model of the threshold encryption stack

A Dafny model of the two layers of the repository and of how they fit together:

* **Fast polynomial arithmetic** (`subproductdomain`): Newton inversion of power
  series, division by reversal, the subproduct tree with multipoint evaluation,
  linear combination of moduli, inverse Lagrange coefficients and interpolation,
  and Toeplitz multiplication through a circulant matrix. Each fast form is proved
  equal to a simple reference: schoolbook division, evaluation point by point,
  Lagrange's formula, a plain double sum.
* **Threshold keys** (`tpke`, `ferveo`): setups, encryption, decryption shares and
  their checks, simple and fast combination, share refresh and recovery, publicly
  verifiable dealing, aggregation, and the state machine of the key generation.

The result the two layers lead to: whatever was dealt, aggregated, refreshed or
recovered, any threshold of shares rebuilds the secret that the encryptor used
(`EndToEnd`). The fast combination does so for an even number of shares and yields
the inverse of the secret for an odd number (`FastCombine.FastIsSimpleIff`).

## How things are represented

* The field is the integers modulo an arbitrary prime with a root of unity whose order
  is the largest power of two that is the order of any element (`Field.PARAMS`); the
  type of the parameters is shown to be inhabited, and nothing depends on which prime
  it is.
* Elements of G1, G2 and the target group are their exponents to the base of the
  generators. The group operation is addition, the pairing is multiplication, and a
  product of pairings is a sum of products.
* A polynomial is its coefficient vector. The library operators `+`, `-`, `*` return
  vectors without trailing zeros; vectors that the source resizes or reverses by hand
  may have them.
* The library transform over a radix-2 domain is evaluation at the powers of a
  primitive root; its inverse is interpolation.
* Every random draw is an argument. The hash to G2 and the authenticated cipher are
  arbitrary constants; the cipher only has to open what it sealed.
* Files follow the source files. Loops are methods with invariants, proved against
  functions about which the lemmas are stated; the key generation node is a class.

## Where the code and its comments differ

* tpke/src/context.rs:9 describes the contribution to N(0) with the factor
  (-1)^|domain|. `prepare_combine_fast` multiplies plain domain points, so the result
  carries the sign (-1)^n of the number n of shares; `FastIsSimpleIff` gives the exact
  condition and `OddCountExample` an input.
* tpke/src/key_share.rs:12 calls the blinded key share [b] Z. The keys `setup_fast`
  publishes are multiplied by minus the inverse domain point and therefore fail
  `verify_blinding`; `FastBlindingRejected` gives the exact exceptions and
  `FastBlindingExample` an input.
* ferveo/src/vss/pvss.rs:177-180 promises that the aggregate is verified to be a valid
  aggregation. `verify_aggregation` drops the result of the full check, so an aggregate
  with an altered share is accepted (`AlteredSharesAccepted`); `AggregateAcceptedIff` is
  what is checked, and `AggregateMatchesIff` says when the aggregate of received
  transcripts, of which only the proof of knowledge was verified, passes the full check.
  All results on decryption ask only that the aggregate passes it, not the single deals
  (`OwnAggregateReadyIff`, `AcceptedAggregateIsReady`, `CancellingDealers`).
* ferveo/src/dkg/pv.rs:187-188 says that the counter tracks the shares seen. It does so
  for verified messages (`RunKeepsPhase`); without verification exactly while no dealer
  repeats (`UnverifiedPhaseIff`, which covers every phase), and
  `UnverifiedRepeatMiscounts` is an input.

## What the code does without saying so

* `evaluate` reads the constant coefficient of the remainder handed to a leaf. The
  remainder has no coefficient exactly where the polynomial vanishes; the flag
  `inBounds` of `Evaluate` tracks this, and `EvaluateLine` is an input. Inverse
  Lagrange coefficients are therefore in bounds exactly for distinct points.
* `setup_simple` hands out one context for every element of the domain, so more than the
  number of shares where that is not a power of two; `setup_fast` hands out exactly the
  number of shares.
* A refreshed decryption share no longer verifies against the aggregate, except as
  `RefreshedShareVerifiesIff` says; `RefreshedShareExample` is an input.
* `verify_full` ignores commitments beyond the size of the domain (`AcceptedIsHonest`).
* `new` accepts a threshold above the number of shares and more validators than domain
  elements; `New` says when the node is usable.

## Model

| member | source | states |
|---|---|---|
| NewtonInverse.InverseModXl | subproductdomain/src/lib.rs:50-77 | for every length, None exactly when the constant coefficient is zero, and otherwise f times the result is 1 modulo x^length, even modulo the next power of two, below which the result ends |
| NewtonInverse.NewtonDoubles | subproductdomain/src/lib.rs:63-71 | one Newton step turns an inverse modulo x^n into an inverse modulo x^(2n) |
| NewtonInverse.CeilLog2 | subproductdomain/src/lib.rs:54 | the least k with length at most 2^k, so the iterations suffice and none is wasted |
| NewtonInverse.InverseUnique | subproductdomain/src/lib.rs:46-49 | two inverses modulo x^n agree modulo x^n |
| FastDivision.Rev | subproductdomain/src/lib.rs:82-88 | the vector padded to m + 1 entries and reversed |
| FastDivision.ReverseMeaning | subproductdomain/src/lib.rs:79-81 | reversal is x^m f(1/x) as a function, at every non-zero x |
| FastDivision.ReverseProduct | subproductdomain/src/lib.rs:106-116 | reversing two factors reverses their product, coefficient by coefficient |
| FastDivision.ReversalCancels | subproductdomain/src/lib.rs:112-117 | a quotient computed from truncated reversals cancels every coefficient of the dividend from the divisor's degree up |
| FastDivision.FastDivideMonic | subproductdomain/src/lib.rs:92-119 | equals schoolbook long division, in the short-dividend branch too, for every divisor with invertible leading coefficient |
| FastDivision.LongDivideCorrect | subproductdomain/src/lib.rs:90-119 | the reference division satisfies f = g q + r |
| FastDivision.DivisionUnique | subproductdomain/src/lib.rs:90-119 | quotient and remainder below the divisor's degree are unique |
| SubproductTree.TreeIsProduct | subproductdomain/src/lib.rs:189-218 | every node of the tree over u holds the product of x - u_i over exactly its slice |
| SubproductTree.RemainderKeepsValues | subproductdomain/src/lib.rs:237-239 | the remainder modulo the product over u has the values of f on u |
| SubproductTree.Evaluate | subproductdomain/src/lib.rs:219-249 | for any f of degree below the number of points, exactly the slots of the slice receive f(u_i) in order and all others keep their content; the leaf reads are in bounds exactly when no value is zero |
| SubproductTree.LinearCombineIsCombination | subproductdomain/src/lib.rs:275-299 | the tree computes the sum of c_i times the product of x - u_j over j other than i |
| Combinations.CombinationConcat | subproductdomain/src/lib.rs:290-298 | combinations over two halves, each multiplied by the other half's product, add up to the combination over the whole |
| Combinations.CombinationAt | subproductdomain/src/lib.rs:275-280 | at the point u_k a combination has the value c_k times the product of u_k - u_j over j other than k |
| Derivative.ComputeDerivative | subproductdomain/src/lib.rs:303-309 | the vector of i times the i-th coefficient, one entry shorter |
| Derivative.ProductRule | subproductdomain/src/lib.rs:303-309 | (f g)' = f' g + f g' for all polynomials, in any characteristic |
| Combinations.DerivativeOfProduct | subproductdomain/src/lib.rs:264-273 | the derivative of the product of x - u_i is the sum of the products leaving one factor out |
| Combinations.DerivativeAtRoot | subproductdomain/src/lib.rs:264-273 | the derivative of the product at u_i is the product of u_i - u_j over j other than i |
| SubproductTree.InverseLagrangeCoefficients | subproductdomain/src/lib.rs:263-273 | for every non-empty u the i-th entry is the product of u_i - u_j over j other than i; the reads are in bounds exactly when the points are distinct |
| SubproductTree.Interpolate | subproductdomain/src/lib.rs:253-261 | for distinct points, Lagrange's interpolation polynomial of the values |
| Combinations.InterpolantAt | subproductdomain/src/lib.rs:155-157 | the interpolation polynomial has the value v_i at u_i |
| Combinations.InterpolantUnique | subproductdomain/src/lib.rs:155-157 | it is the only polynomial of degree below the number of points with these values |
| SubproductTree.EvaluateInterpolant | subproductdomain/src/lib.rs:147-159 | evaluating what was interpolated returns the values |
| SubproductTree.InterpolateValues | subproductdomain/src/lib.rs:147-159 | interpolating what was evaluated returns the polynomial |
| RootProducts.RootBound | subproductdomain/src/lib.rs:253-261 | a polynomial of degree below n with n distinct roots is zero |
| SubproductTree.NewDomain | subproductdomain/src/lib.rs:139-145 | a domain holds the tree over its points and the derivative of their product |
| SubproductTree.EvaluateOver | subproductdomain/src/lib.rs:147-153 | the values of f on the points of the domain |
| SubproductTree.EvaluateLine | subproductdomain/src/lib.rs:228-231 | for the polynomial x over the points 0 and 1 the values are right but a leaf reads out of bounds |
| Toeplitz.BuildCirculant | subproductdomain/src/lib.rs:314-331 | in both branches, reading n to the left and n to the right of s finds exactly coefficient s for 0 < s < 2n |
| Toeplitz.Convolution | subproductdomain/src/lib.rs:366-373 | transforming, multiplying entry by entry and transforming back is the product modulo x^size - 1 |
| Toeplitz.ToeplitzMul | subproductdomain/src/lib.rs:335-379 | output i is the sum over j of coefficient i+j+1 times v_j, the second result inverts the transform size, and it fails exactly when the domain does not exist |
| EvaluationDomains.ElementsDistinct | subproductdomain/src/lib.rs:345-348 | the elements of a radix-2 domain are pairwise distinct |
| EvaluationDomains.IfftFft | subproductdomain/src/lib.rs:366-373 | the inverse transform undoes the transform |
| EvaluationDomains.FftIfft | subproductdomain/src/lib.rs:366-373 | the transform undoes the inverse transform |
| EvaluationDomains.NewFftDomain | ferveo/src/dkg/pv.rs:37-41 | the least power of two that fits, generated by an element of exactly that order, and none exactly when the field has no element of that order |
| Lagrange.LagrangeBasisAt | tpke/src/combine.rs:46-61 | for every j the product, over the points different from x_j, of (x_m - x) / (x_m - x_j) |
| Lagrange.PrepareCombineSimple | tpke/src/combine.rs:37-43 | the same coefficients at zero |
| Lagrange.BasisReproduces | tpke/src/combine.rs:45-61 | on n distinct points the coefficients reproduce every polynomial of degree below n at every point from its values |
| Lagrange.BasisAtOwnPoint | tpke/src/combine.rs:46-61 | at one of the points they are the Kronecker delta |
| Lagrange.BasisIsRatio | tpke/src/combine.rs:46-61 | each coefficient is the product of x - x_m over the product of x_j - x_m |
| Lagrange.BasisOfRepeatedPoints | tpke/src/combine.rs:46-61 | for any points, repeated or not, each coefficient is the ratio of the products over the points that differ from its own |
| Combine.SimpleCombines | tpke/src/combine.rs:103-114 | shares e(U, Z_i) of a polynomial at distinct points, at least as many as its coefficients, combine to e(U, h) to its constant term |
| Combine.PrecomputedCombines | tpke/src/combine.rs:116-123 | shares with the coefficient folded into U combine to the same secret |
| Combine.CombineSimpleSteps | tpke/src/combine.rs:103-114 | for any shares and coefficients the combination grows by C^L with each pair, starts at the neutral element, and stops at the shorter list |
| Combine.CombinePrecomputedSteps | tpke/src/combine.rs:116-123 | for any precomputed shares the combination is their product |
| Combine.PrepareCombineFast | tpke/src/combine.rs:6-35 | the blinded key shares times the product of all contributions over the product of differences of the domain points; in bounds exactly for distinct decrypters |
| Combine.PreparedEquation | tpke/src/combine.rs:12-34 | for any contexts of different decrypters, the prepared key times the product of the differences of the domain points is the blinded key share times the product of all contributions |
| Combine.ShareCombineFast | tpke/src/combine.rs:64-82 | the product of the pairings of shares and prepared keys over the shorter list |
| Combine.CheckedShareCombineFast | tpke/src/combine.rs:84-101 | an error exactly when some share is wrong for its decrypter's blinding key, and otherwise the combination |
| Combine.FastCoefficient | tpke/src/combine.rs:12-21 | the fast coefficient, with the negated inverse point of the key share, is (-1)^n times the Lagrange coefficient at zero |
| FastCombine.FastCombines | tpke/src/combine.rs:6-82 | honest shares of any distinct participants, at least as many as the polynomial's coefficients, combine to the secret to the power (-1)^n |
| FastCombine.FastInterpolates | tpke/src/combine.rs:6-82 | honest shares of any distinct participants, however few, combine to e(U, h) to the value at zero of the polynomial interpolating their points, to the power (-1)^n |
| FastCombine.FastIsSimpleIff | tpke/src/combine.rs:6-114 | the fast result is the simple one to the power (-1)^n, and equals it exactly when n is even, the secret is trivial or the characteristic is two |
| FastCombine.OddCountExample | tpke/src/combine.rs:12-16 | a dealing in which the fast result of one share is not the secret |
| FastCombine.CheckedCombineIsFixed | tpke/src/combine.rs:84-101 | what the checked fast combination accepts is fixed by U and the participants, whoever made the shares and however few they are; enough of them give the signed secret |
| Ciphertexts.ValidityIsOneExponent | tpke/src/ciphertext.rs:105-131 | the check accepts exactly when one exponent explains both U and W |
| Ciphertexts.ValidityEquation | tpke/src/ciphertext.rs:108-131 | for any element in the place of g^-1 the check compares e(U, H) with the inverse of its pairing with W |
| Ciphertexts.CheckedDecryptExact | tpke/src/ciphertext.rs:147-168 | for every ciphertext and secret: the verification error exactly for an ill-formed ciphertext, the cipher's failure exactly when a well-formed one does not open, and otherwise its content |
| Ciphertexts.CheckedDecryptByKeyExact | tpke/src/ciphertext.rs:133-158 | the same for decryption with the private key, with the secret e(U, Z) |
| Ciphertexts.AlteredTagRejected | tpke/src/ciphertext.rs:94-131 | an encryption with any other tag is rejected by both decryptions, whatever the key or secret |
| Ciphertexts.OtherAadAcceptedIff | tpke/src/ciphertext.rs:94-131 | with other associated data an encryption is accepted exactly when r is zero or both data have the same hash |
| Ciphertexts.DecryptEncrypt | tpke/src/ciphertext.rs:70-103 | decrypting an encryption with the encryptor's secret returns the message |
| Ciphertexts.PrivateKeyDecrypts | tpke/src/ciphertext.rs:133-145 | the undistributed private key decrypts what was encrypted to its public key |
| Contexts.SetupFast | tpke/src/lib.rs:86-182 | as many contexts as shares, each with the dealt polynomial's value at its domain point, its own blinder and the same list of public contexts; the keys commit to the constant term |
| Contexts.SetupSimple | tpke/src/lib.rs:184-267 | one context for every element of the domain, whose size is the least power of two that is at least the number of shares, each with the polynomial's value at its element, its own blinder as private key, and the same list of public contexts; the keys commit to the constant term |
| Contexts.DomainPoints | tpke/src/lib.rs:119-129 | the multiplied-up points are the domain elements and their inverses |
| Contexts.FastPublished | tpke/src/lib.rs:130-177 | the published fast contexts hold the domain point, the commitment to the value there, h to the blinder, the inverse of h, and a blinded share from which multiplication by minus the domain point gives [b] Z |
| Contexts.SimplePublished | tpke/src/lib.rs:219-262 | the published simple contexts hold the domain point, the commitment to the value there, h, h to the blinder, and the blinded key share |
| Contexts.SimpleBlindingAccepted | tpke/src/key_share.rs:25-47 | the keys the simple setup publishes pass the blinding check, and no other key share would |
| Contexts.VerifyBlindingExact | tpke/src/key_share.rs:25-47 | the check accepts exactly when alpha is zero or the blinded share is the blinding key to the exponent of the public share |
| Contexts.FastBlindingRejected | tpke/src/key_share.rs:49-52 | after the multiplication by the negated inverse point the check accepts only for a zero share or the point -1 |
| Contexts.FastBlindingExample | tpke/src/key_share.rs:25-52 | the first participant's key of the constant polynomial one is rejected in every domain, over every field of odd characteristic |
| SetupDecryption.SimpleSetupDecrypts | tpke/src/lib.rs:469-499 | any participants of the simple setup, enough for the polynomial's degree, make shares of every encryption to the public key, and the shares decrypt the message |
| SetupDecryption.SimpleSharesMade | tpke/src/context.rs:74-87 | a participant makes a share exactly of the well-formed ciphertexts: e(U, Z) with its checksum under its own index |
| SetupDecryption.FastSharesMade | tpke/src/context.rs:42-59 | a participant makes a fast share exactly of the well-formed ciphertexts: [1/b] U under its own index |
| SetupDecryption.SimpleKeyFromShares | tpke/src/lib.rs:201-262 | the private key shares in any sufficient contexts of the simple setup interpolate to the private key |
| SetupDecryption.FastKeyFromShares | tpke/src/lib.rs:101-177 | the same for the fast setup |
| SetupDecryption.SimpleRoundTrip | tpke/src/lib.rs:469-499 | setup, encryption, shares, coefficients over the published points, combination and decryption, each with what the contexts hold, return the message |
| SetupDecryption.FastRoundTrip | tpke/src/lib.rs:421-466 | the same through the checked fast path for an even number of participants |
| SetupDecryption.PrecomputedSetupCombines | tpke/src/context.rs:89-105 | precomputed shares of any participants combine to the encryptor's secret |
| SetupDecryption.SimpleContextVerifies | tpke/src/decryption.rs:204-227 | against the public contexts a share verifies exactly when it is the participant's e(U, Z) with its checksum |
| SetupDecryption.FastSetupDecrypts | tpke/src/context.rs:42-59 | any participants make fast shares of every encryption; they pass the check and combine to the signed secret, and an even number of them decrypts the message |
| Decryption.VerifySimpleExact | tpke/src/decryption.rs:79-101 | whoever made it, a share verifies exactly when it is e(U, Z) with the checksum [1/dk] U |
| Decryption.VerifySimpleFor | tpke/src/decryption.rs:79-101 | the same with any other generator in the place of h |
| Decryption.CreatedVerifies | tpke/src/decryption.rs:48-75 | a share is refused exactly for a ciphertext that fails the check, with g^-1 exactly for an ill-formed one; otherwise it carries the index and verifies |
| Decryption.ContextShareExact | tpke/src/context.rs:74-87 | the same for the share a context makes |
| Decryption.FastShareExact | tpke/src/context.rs:42-59 | a fast share is refused exactly for an ill-formed ciphertext; otherwise it carries the index and satisfies its pairing equation |
| Decryption.PrecomputedShareExact | tpke/src/context.rs:89-105 | a precomputed share is made without a check and is e(U, Z) raised to the coefficient, under the context's index |
| Decryption.VerifySharesFast | tpke/src/decryption.rs:169-202 | accepts exactly when every share satisfies its pairing equation |
| Decryption.VerifySharesSimple | tpke/src/decryption.rs:204-227 | accepts exactly when every share up to the shorter list verifies against its context |
| Decryption.RightFastShare | tpke/src/decryption.rs:190-199 | the equation of a fast share holds exactly for [1/b] U |
| BatchVerification.BatchVerify | tpke/src/decryption.rs:105-166 | accepts exactly when the weighted pairings under the first row's blinding keys balance the weighted commitments, for rows of any lengths |
| BatchVerification.BatchOfAnyRows | tpke/src/decryption.rs:105-166 | surplus shares and rows are ignored, and missing ones count as neutral |
| BatchVerification.BatchIsErrorSum | tpke/src/decryption.rs:105-166 | the batch accepts exactly when the weighted double sum of the share errors is zero |
| BatchVerification.BatchForAllScalars | tpke/src/decryption.rs:105-166 | it accepts for all scalars exactly when every share is right for the key in its column |
| BatchVerification.BatchExact | tpke/src/decryption.rs:105-202 | with one decrypter order it accepts for all scalars exactly when every row passes the fast check |
| Refresh.MakeRandomPolynomialAt | tpke/src/refresh.rs:63-83 | the polynomial vanishes at the root and keeps every random coefficient but the constant one |
| Refresh.VanishingIsOnto | tpke/src/refresh.rs:63-83 | every polynomial with that root arises |
| Refresh.UpdatesOfDealer | tpke/src/refresh.rs:11-30 | a dealer sends h to the values of a polynomial that vanishes at x_r and has the dealer's other coefficients |
| Refresh.UpdateShareIsSum | tpke/src/refresh.rs:32-44 | an updated share is the share plus the sum of all updates received |
| Refresh.UpdatedShareOnSum | tpke/src/refresh.rs:32-44 | an updated share lies on the shared polynomial plus the sum of the dealers' polynomials, in any order of updates |
| Refresh.RecoveryIsExact | tpke/src/refresh.rs:10-61 | from at least t distinct points, any dealers and any order of receipt, interpolation at x_r gives exactly the share at x_r |
| Lifecycle.RefreshKeeps | tpke/src/refresh.rs:85-101 | a refresh moves all shares, at the same points, from f to f plus the dealer's polynomial, of the same degree bound and the same constant term |
| Lifecycle.RecoverKeeps | tpke/src/refresh.rs:11-61 | a recovery leaves a holder at x_r with the share there, and all other holders with theirs |
| Lifecycle.LoseKeeps | tpke/src/refresh.rs:47-61 | a loss, the reason for a recovery, removes one holder and keeps the others |
| Lifecycle.StepsArePossible | tpke/src/refresh.rs:11-101 | as long as a threshold of holders is left, every refresh, recovery and loss is a run |
| Lifecycle.RunKeeps | tpke/src/refresh.rs:11-101 | after any run of refreshes, recoveries and losses all shares lie on the first polynomial plus those of the refreshes, below the threshold and with the first constant term |
| Lifecycle.SecretSurvives | tpke/src/refresh.rs:11-101 | after any run, any t holders' shares combine to the first secret |
| Pvss.Deal | ferveo/src/vss/pvss.rs:78-122 | the transcript of the random polynomial with the secret as constant term: commitments, one share per validator's key and point, proof of knowledge |
| Pvss.VerifyFull | ferveo/src/vss/pvss.rs:146-172 | accepts exactly when every share present is the validator's key to the committed polynomial at its point |
| Pvss.AcceptedIsHonest | ferveo/src/vss/pvss.rs:127-172 | the transcripts with one share per validator that pass both checks are exactly those whose shares and proof belong to their commitments cut or padded to the domain; with no more commitments than domain elements, exactly the dealt transcripts |
| Pvss.Aggregate | ferveo/src/vss/pvss.rs:296-329 | the sum of the transcripts of all dealers, part by part |
| Pvss.TranscriptOfSum | ferveo/src/vss/pvss.rs:312-321 | the sum of two dealt transcripts is the transcript of the sum of their polynomials |
| Pvss.AggregateOfAccepted | ferveo/src/vss/pvss.rs:293-329 | the aggregate of accepted transcripts is the transcript of the sum of their polynomials |
| Pvss.AggregateMatchesIff | ferveo/src/vss/pvss.rs:146-172 | the aggregate of any transcripts of one shape passes the full check exactly when for every validator the dealers' deviations from their commitments add up to zero |
| Pvss.AggregateConstant | ferveo/src/vss/pvss.rs:296-329 | its constant commitment is the sum of the dealers' constant commitments |
| Pvss.AggregateParts | ferveo/src/vss/pvss.rs:296-329 | every commitment, every share and the proof of an aggregate is the sum of those of all transcripts, whoever made them |
| Pvss.AggregateReordered | ferveo/src/vss/pvss.rs:296-329 | the aggregate does not depend on the order of the transcripts |
| Pvss.VerifyAggregation | ferveo/src/vss/pvss.rs:181-203 | succeeds with the number of dealers exactly when the constant commitment is the sum, whatever the full check said |
| Pvss.DecryptedShare | ferveo/src/vss/pvss.rs:205-218 | a validator decrypts exactly the polynomial's value at its point |
| Pvss.DecryptedTimesKey | ferveo/src/vss/pvss.rs:205-218 | for any transcript, raising the decrypted share to the decryption key gives the encrypted share back |
| Pvss.MadeShareExact | ferveo/src/vss/pvss.rs:220-241 | for any transcript a decryption share is refused exactly for an ill-formed ciphertext; otherwise it names the validator and verifies |
| Pvss.RefreshedShareExact | ferveo/src/vss/pvss.rs:243-274 | the same for a refreshed share, which verifies against the share moved by the polynomial's value |
| Dkg.PubliclyVerifiableDkg.New | ferveo/src/dkg/pv.rs:31-66 | starts empty in the sharing phase with share indices in order and the first position of the own identity, and fails exactly without a domain or for a stranger; the node is usable exactly when the threshold is at most the number of shares and the domain has an element for every validator |
| Dkg.PubliclyVerifiableDkg.IncreaseBlock | ferveo/src/dkg/pv.rs:72-82 | counts a block only while sharing and before the own deal, and always answers Wait |
| Dkg.PubliclyVerifiableDkg.Share | ferveo/src/dkg/pv.rs:87-99 | a fresh dealing while deals are taken, an error otherwise |
| Dkg.PubliclyVerifiableDkg.AggregateAll | ferveo/src/dkg/pv.rs:102-115 | the aggregate of the received transcripts with the final key, in the dealt phase only |
| Dkg.PubliclyVerifiableDkg.ComputeFinalKey | ferveo/src/dkg/pv.rs:118-124 | the sum of the constant commitments received |
| Dkg.EntryOfDealer | ferveo/src/dkg/pv.rs:118-124 | every dealer's transcript is listed once, after those of the smaller dealers |
| Dkg.EntriesOfUpdate | ferveo/src/dkg/pv.rs:180-186 | storing a transcript adds exactly that one to the listed ones, in place of the dealer's former one |
| Dkg.FinalKeyOfNone | ferveo/src/dkg/pv.rs:118-124 | the final key of no transcripts is the neutral element |
| Dkg.FinalKeyOfDeal | ferveo/src/dkg/pv.rs:118-124 | a new deal adds its constant commitment to the final key, and a repeated one exchanges it |
| DkgRuns.KeyOfRun | ferveo/src/dkg/pv.rs:102-124 | after a run of verified messages the node holds each dealt transcript once: its final key is the sum of their constant commitments, and its aggregate is theirs |
| Dkg.PubliclyVerifiableDkg.VerifyMessage | ferveo/src/dkg/pv.rs:129-169 | the outcome, with its error, for every phase and message |
| Dkg.PubliclyVerifiableDkg.ApplyMessage | ferveo/src/dkg/pv.rs:174-204 | the new transcripts and phase, and the outcome, for every phase and message |
| DkgOutcomes.ApplyExact | ferveo/src/dkg/pv.rs:174-204 | a deal applies exactly while deals are taken from a listed address, an aggregation exactly in the dealt phase; the error tells the reason, and an error changes nothing |
| DkgOutcomes.AppliedExact | ferveo/src/dkg/pv.rs:180-201 | an applied deal is stored under the first validator of its address and counted, an applied aggregation only caches the final key |
| DkgOutcomes.VerifiedApplies | ferveo/src/dkg/pv.rs:129-204 | every verified message applies |
| DkgOutcomes.DealRefusedExact | ferveo/src/dkg/pv.rs:134-149 | which error a refused deal gets, in every phase |
| DkgOutcomes.AggregateRefusedExact | ferveo/src/dkg/pv.rs:150-167 | which error a refused aggregation gets, in every node |
| DkgOutcomes.BlocksCounted | ferveo/src/dkg/pv.rs:72-82 | in every run, verified or not, the block counter of a sharing node is the number of blocks before its own deal |
| DkgOutcomes.BlockChangesOnlyCounter | ferveo/src/dkg/pv.rs:72-82 | a block changes nothing but the counter, and that only while sharing |
| DkgRuns.RunKeepsPhase | ferveo/src/dkg/pv.rs:129-204 | in every run of verified messages: sharing counts the dealers and stays below the minimum, dealt and success have at least one dealer and the minimum, and the cached key is the sum of all constant commitments |
| DkgRuns.DealAcceptedIff | ferveo/src/dkg/pv.rs:134-149 | a deal is accepted exactly from a listed validator that has not dealt, with a matching proof of knowledge, while deals are taken |
| DkgRuns.AggregateAcceptedIff | ferveo/src/dkg/pv.rs:150-167 | in a reachable node an aggregation is accepted exactly in the dealt phase when both its constant commitment and its key are the final key |
| DkgRuns.OwnAggregateVerifies | ferveo/src/dkg/pv.rs:102-115 | in every reachable dealt node with transcripts of one shape its own aggregation verifies |
| DkgRuns.AlteredSharesAccepted | ferveo/src/vss/pvss.rs:181-203 | an aggregate with one altered share is accepted although the full check rejects it |
| DkgRuns.Agreement | ferveo/src/dkg/pv.rs:174-204 | nodes of any two validators of one session that apply the same verified deals in any orders hold the same transcripts and final key, and agree on the phase before aggregation and on the cached key after it |
| DkgDealers.DealsAcceptedIff | ferveo/src/dkg/pv.rs:134-149 | a sequence of deals and blocks is verified from beginning to end exactly when each deal comes from a listed validator with a matching proof of knowledge, no dealer repeats, and none has dealt before |
| DkgDealers.AnyOrderAgrees | ferveo/src/dkg/pv.rs:129-194 | deals that one node verified are verified by the node of every validator of the session in every order, with blocks anywhere in between, and lead to the same transcripts, phase and final key |
| DkgRuns.SuccessIsFinal | ferveo/src/dkg/pv.rs:196-203 | after success every message is rejected and nothing changes, even unverified |
| DkgDealers.UnverifiedPhaseIff | ferveo/src/dkg/pv.rs:174-204 | in every run of unverified messages the counter is the number of accepted deals; while sharing it is the number of dealers exactly when no dealer repeats; once dealt, and in success, there is the minimum of dealers exactly when that many different validators dealt before the aggregation that was applied, which is the first one after enough deals |
| DkgDealers.UnverifiedRepeatMiscounts | ferveo/src/dkg/pv.rs:180-193 | applying a deal twice without verification counts two shares for one dealer |
| EndToEnd.AggregateIsOnePolynomial | ferveo/src/vss/pvss.rs:146-172 | a transcript that passes the full check with the final key as its constant commitment has the shares of one polynomial below the threshold, and the final key commits to its constant term |
| EndToEnd.AcceptedAggregateIsReady | ferveo/src/dkg/pv.rs:150-167 | every aggregation that a reachable node accepts and that passes the full check, whoever made it, has these properties, before and after it is applied |
| EndToEnd.OwnAggregateReadyIff | ferveo/src/vss/pvss.rs:296-329 | the own aggregate of any transcripts of one shape has them exactly when it passes the full check, that is, when the dealers' deviations cancel for every validator |
| EndToEnd.CheckedAggregateIsDealt | ferveo/src/vss/pvss.rs:127-172 | after verified deals, an own aggregate that passes the full check is the transcript of a polynomial, proof of knowledge included |
| EndToEnd.CancellingDealers | ferveo/src/dkg/pv.rs:134-149 | a verified run of two deals that both fail the full check while their aggregate passes it |
| EndToEnd.HonestRunIsReady | ferveo/src/dkg/pv.rs:174-204 | every run of verified deals by honest dealers, at least one, leads to an own aggregate with these properties, the transcript of a polynomial |
| EndToEnd.SingleValidatorSession | ferveo/src/lib.rs:109-134 | a session of one validator, for any secret and key, reaches the dealt phase with an aggregate to which the results apply |
| EndToEnd.PairSession | ferveo/src/lib.rs:109-134 | so does a session of two validators with threshold two, for any dealt line and keys |
| EndToEnd.VerifiedSharesCombine | tpke/src/decryption.rs:79-101 | shares that verify against an aggregate that passes the full check, whoever made them and whatever single dealers dealt, combine to the encryptor's secret from any threshold of validators |
| EndToEnd.MadeSharesVerify | ferveo/src/vss/pvss.rs:220-241 | the shares validators make from the aggregate verify against it |
| EndToEnd.SharesAreMade | ferveo/src/vss/pvss.rs:220-241 | every key holder produces a share of a well-formed ciphertext, and none of an ill-formed one |
| EndToEnd.AnyThresholdDecrypts | ferveo/src/vss/pvss.rs:205-241 | any threshold of validators makes shares of any message encrypted to the final key, and the shares decrypt it |
| EndToEnd.RefreshedSharesCombine | ferveo/src/vss/pvss.rs:243-274 | refreshed shares of any threshold of validators combine to the same secret |
| EndToEnd.RefreshedShareVerifiesIff | ferveo/src/vss/pvss.rs:243-274 | a refreshed share verifies against the aggregate exactly when U or the refresh polynomial at the point is trivial |
| EndToEnd.RefreshedShareExample | ferveo/src/vss/pvss.rs:243-274 | in a session of two validators, a share refreshed with the polynomial x does not verify, for any message |
| EndToEnd.UpdatedFromAggregate | ferveo/src/vss/pvss.rs:276-290 | a validator's updated share lies on the shared polynomial plus the dealers' ones |
| EndToEnd.RecoveredFromAggregate | ferveo/src/vss/pvss.rs:276-290 | updated shares of any threshold of validators recover the polynomial's value at x_r |
| EndToEnd.LifecycleDecrypts | tpke/src/refresh.rs:11-101 | after any run of refreshes, recoveries and losses, any threshold of holders decrypts what was encrypted to the final key |

## Left out

- Curve arithmetic, pairing internals, point representations and windowed multi-scalar multiplication: library code; group elements are exponents and `fast_multiexp` is a scalar multiple entry by entry.
- Assertions inside the polynomial library on operands with trailing zeros: the library is not part of this model.
- SubproductTree.Evaluate: where the source indexes an empty vector at a leaf the model writes zero, the value of the polynomial there, and reports it in `inBounds`.
- Hashing to the curve, SHA-256 and the stream cipher: arbitrary functions; `Ciphertext::check`, which omits the associated data and has no caller, is not modelled.
- Byte encodings of ciphertexts, shares and phases, the language bindings and the benches.
- Contexts.SetupFast: coefficients and blinders are arguments; a zero blinder, whose inversion panics in the source, is excluded.
- BlindedKeyShare, contexts and transcripts are owned values in the source and are never aliased; they are modelled as values, so update in place of `multiply_by_omega_inv` is a new value.
- Fixed-width counters: `u32` overflow of the block and share counters and `usize` overflow of the Newton precision are not modelled; a threshold above the number of shares, where the `u32` subtraction would wrap, is excluded by `Config.Valid`.
- Dkg.PubliclyVerifiableDkg.VerifyMessage: transcripts without any commitment, on which the source panics, are excluded.
- Pvss.MakeDecryptionShareSimple and Pvss.RefreshDecryptionShare return the error that the source unwraps.
- Computational security: no statement about adversaries or probabilities; batch acceptance is stated for all scalars.
- Weighted shares, KZG-based key generation and threshold signatures are described in the book only.
