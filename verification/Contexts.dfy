/** Key shares, decryption contexts, and the trusted-dealer setups that build them. */
module Contexts {
  import opened Field
  import opened Polynomials
  import opened NewtonInverse
  import opened EvaluationDomains
  import opened Groups
  import opened Ciphertexts

  // ----- key shares -----

  datatype BlindedKeyShare = BlindedKeyShare(blindingKey: G2, blindedKeyShare: G2)

  /** `PrivateKeyShare::blind` */
  function Blind(privateKeyShare: G2, b: F): BlindedKeyShare {
    BlindedKeyShare(Mul(G2_GENERATOR, b), Mul(privateKeyShare, b))
  }

  /** `multiply_by_omega_inv` */
  function MultiplyByOmegaInv(share: BlindedKeyShare, omegaInv: F): BlindedKeyShare {
    share.(blindedKeyShare := Mul(share.blindedKeyShare, Neg(omegaInv)))
  }

  /** `verify_blinding`, with its random element alpha as an argument. */
  predicate VerifyBlinding(share: BlindedKeyShare, publicKeyShare: G1, alpha: F) {
    var alphaA := Add(G1_GENERATOR, Mul(publicKeyShare, alpha));
    var alphaZ := Add(share.blindingKey, Mul(share.blindedKeyShare, alpha));
    ProductOfPairings([(Neg(G1_GENERATOR), alphaZ), (alphaA, share.blindingKey)]) == GT_ONE
  }

  // ----- contexts -----

  datatype SetupParams = SetupParams(b: F, bInv: F, g: G1, gInv: G1, hInv: G2, h: G2)

  /** The blinder and the generators, each with its inverse. */
  function ParamsFor(b: F): (p: SetupParams)
    requires b != 0
    ensures p.b == b && Mul(p.b, p.bInv) == 1
    ensures p.g == G1_GENERATOR && p.gInv == G1_INVERSE && Add(p.g, p.gInv) == 0
    ensures p.h == G2_GENERATOR && Add(p.h, p.hInv) == 0
  {
    SetupParams(b, Inv(b), G1_GENERATOR, G1_INVERSE, Neg(G2_GENERATOR), G2_GENERATOR)
  }

  datatype PublicContextFast = PublicContextFast(
    domain: F, publicKeyShare: G1, blindedKeyShare: BlindedKeyShare, lagrangeN0: F, hInv: G2)

  datatype PrivateContextFast = PrivateContextFast(
    index: nat, setupParams: SetupParams, privateKeyShare: G2, publicContexts: seq<PublicContextFast>)

  datatype PublicContextSimple = PublicContextSimple(
    domain: F, publicKeyShare: G1, blindedKeyShare: BlindedKeyShare, h: G2, validatorPublicKey: G2)

  datatype PrivateContextSimple = PrivateContextSimple(
    index: nat, setupParams: SetupParams, privateKeyShare: G2,
    publicContexts: seq<PublicContextSimple>, validatorPrivateKey: F)

  // ----- what the setups hand out -----

  /** The public context of participant i when f was dealt over d with blinder b. */
  function FastPublic(f: Poly, d: FftDomain, b: F, i: nat): PublicContextFast
    requires d.Valid()
  {
    ElementNonZero(d, i);
    var w, y := d.Element(i), Eval(f, d.Element(i));
    PublicContextFast(w, y, MultiplyByOmegaInv(Blind(y, b), Inv(w)), w, Neg(G2_GENERATOR))
  }

  function SimplePublic(f: Poly, d: FftDomain, b: F, i: nat): PublicContextSimple {
    var w, y := d.Element(i), Eval(f, d.Element(i));
    PublicContextSimple(w, y, Blind(y, b), G2_GENERATOR, Mul(G2_GENERATOR, b))
  }

  predicate FastSetup(contexts: seq<PrivateContextFast>, f: Poly, d: FftDomain, bs: seq<F>)
    requires d.Valid()
  {
    && |contexts| == |bs|
    && forall i :: 0 <= i < |contexts| ==>
         && bs[i] != 0
         && contexts[i].index == i
         && contexts[i].setupParams == ParamsFor(bs[i])
         && contexts[i].privateKeyShare == Eval(f, d.Element(i))
         && contexts[i].publicContexts == FastPublics(f, d, bs)
  }

  function FastPublics(f: Poly, d: FftDomain, bs: seq<F>): (r: seq<PublicContextFast>)
    requires d.Valid()
    ensures |r| == |bs|
    ensures forall i :: 0 <= i < |bs| ==> r[i] == FastPublic(f, d, bs[i], i)
  {
    seq(|bs|, i requires 0 <= i < |bs| => FastPublic(f, d, bs[i], i))
  }

  predicate SimpleSetup(contexts: seq<PrivateContextSimple>, f: Poly, d: FftDomain, bs: seq<F>) {
    && |contexts| == |bs|
    && forall i :: 0 <= i < |contexts| ==>
         && bs[i] != 0
         && contexts[i].index == i
         && contexts[i].setupParams == ParamsFor(bs[i])
         && contexts[i].privateKeyShare == Eval(f, d.Element(i))
         && contexts[i].validatorPrivateKey == bs[i]
         && contexts[i].publicContexts == SimplePublics(f, d, bs)
  }

  function SimplePublics(f: Poly, d: FftDomain, bs: seq<F>): (r: seq<PublicContextSimple>)
    ensures |r| == |bs|
    ensures forall i :: 0 <= i < |bs| ==> r[i] == SimplePublic(f, d, bs[i], i)
  {
    seq(|bs|, i requires 0 <= i < |bs| => SimplePublic(f, d, bs[i], i))
  }

  /** `fast_multiexp`: the same base raised to every scalar. */
  function FastMultiexp(scalars: seq<F>, base: F): (r: seq<F>)
    ensures |r| == |scalars|
  {
    seq(|scalars|, i requires 0 <= i < |scalars| => Mul(base, scalars[i]))
  }

  lemma MultiexpOfGenerator(scalars: seq<F>)
    ensures FastMultiexp(scalars, 1) == scalars
  {
    hide Mul;
    forall i | 0 <= i < |scalars| ensures Mul(1, scalars[i]) == scalars[i] { MulZeroOne(scalars[i]); }
  }

  /** The dealer's polynomial, of at most `threshold` coefficients, over a field with
      roots of unity enough for the shares. */
  predicate DealerInput(threshold: nat, sharesNum: nat, f: Poly) {
    1 <= |f| <= threshold <= sharesNum && NewFftDomain(sharesNum).Some?
  }

  /** One invertible blinder for each of n contexts. */
  predicate Blinders(bs: seq<F>, n: nat) {
    |bs| == n && forall i :: 0 <= i < n ==> bs[i] != 0
  }

  lemma PowInv(a: F, n: nat)
    requires a != 0
    ensures Pow(a, n) != 0 && Pow(Inv(a), n) == Inv(Pow(a, n))
  {
    hide Mul;
    if n == 0 {
      MulZeroOne(1);
      InvUnique(1, 1);
    } else {
      PowInv(a, n - 1);
      InvMul(a, Pow(a, n - 1));
    }
  }

  lemma PowNext(a: F, n: nat)
    ensures Pow(a, n + 1) == Mul(Pow(a, n), a)
  {
    MulComm(a, Pow(a, n));
  }

  /** `setup_fast` */
  method SetupFast(threshold: nat, sharesNum: nat, f: Poly, bs: seq<F>)
    returns (pubkey: G1, privkey: G2, privateContexts: seq<PrivateContextFast>)
    requires DealerInput(threshold, sharesNum, f) && Blinders(bs, sharesNum)
    ensures FastSetup(privateContexts, f, NewFftDomain(sharesNum).value, bs)
    ensures pubkey == Mul(G1_GENERATOR, Eval(f, 0)) && privkey == Mul(G2_GENERATOR, Eval(f, 0))
  {
    hide Mul, NewFftDomain, Pow, Eval, Blind, MultiplyByOmegaInv;
    var d := NewFftDomain(sharesNum).value;
    var evals := Fft(d, f);
    var pubkeyShares := FastMultiexp(evals, G1_GENERATOR);
    var privkeyShares := FastMultiexp(evals, G2_GENERATOR);
    MultiexpOfGenerator(evals);
    var x := f[0];
    EvalAtZero(f);
    pubkey, privkey := Mul(G1_GENERATOR, x), Mul(G2_GENERATOR, x);

    var domainPoints, domainPointsInv := DomainPoints(d, sharesNum);

    privateContexts := [];
    var publicContexts := [];
    for index := 0 to sharesNum
      invariant |privateContexts| == index && |publicContexts| == index
      invariant publicContexts == FastPublics(f, d, bs)[..index]
      invariant forall i :: 0 <= i < index ==>
                  privateContexts[i] == PrivateContextFast(i, ParamsFor(bs[i]), Eval(f, d.Element(i)), [])
    {
      var w, wInv := domainPoints[index], domainPointsInv[index];
      var b := bs[index];
      var blinded := MultiplyByOmegaInv(Blind(privkeyShares[index], b), wInv);
      privateContexts := privateContexts + [PrivateContextFast(index, ParamsFor(b), privkeyShares[index], [])];
      publicContexts := publicContexts + [PublicContextFast(w, pubkeyShares[index], blinded, w, Neg(G2_GENERATOR))];
    }
    for i := 0 to sharesNum
      invariant |privateContexts| == sharesNum
      invariant forall k :: 0 <= k < sharesNum ==>
                  privateContexts[k] == PrivateContextFast(k, ParamsFor(bs[k]), Eval(f, d.Element(k)),
                                                           if k < i then publicContexts else [])
    {
      privateContexts := privateContexts[i := privateContexts[i].(publicContexts := publicContexts)];
    }
  }

  /** The powers of the group generator and of its inverse, multiplied up one by one. */
  method DomainPoints(d: FftDomain, n: nat) returns (points: seq<F>, inverses: seq<F>)
    requires d.Valid()
    ensures |points| == |inverses| == n
    ensures forall i :: 0 <= i < n ==> points[i] == d.Element(i) && points[i] != 0 && inverses[i] == Inv(points[i])
  {
    hide Mul, Pow;
    points, inverses := [], [];
    var point, pointInv := 1, 1;
    PowInv(d.groupGen, 0);
    assert Pow(d.groupGen, 0) == 1 && Pow(Inv(d.groupGen), 0) == 1 by { PowZero(d.groupGen); PowZero(Inv(d.groupGen)); }
    for i := 0 to n
      invariant |points| == |inverses| == i
      invariant point == d.Element(i) && point != 0 && pointInv == Inv(point) == Pow(Inv(d.groupGen), i)
      invariant forall k :: 0 <= k < i ==> points[k] == d.Element(k) && points[k] != 0 && inverses[k] == Inv(points[k])
    {
      points, inverses := points + [point], inverses + [pointInv];
      PowNext(d.groupGen, i);
      PowNext(Inv(d.groupGen), i);
      PowInv(d.groupGen, i + 1);
      point, pointInv := Mul(point, d.groupGen), Mul(pointInv, Inv(d.groupGen));
    }
  }

  lemma PowZero(a: F)
    ensures Pow(a, 0) == 1
  {
  }

  /** `setup_simple`: unlike the fast variant it hands out a context for every element of
      the domain, however few shares were asked for. */
  method SetupSimple(threshold: nat, sharesNum: nat, f: Poly, bs: seq<F>)
    returns (pubkey: G1, privkey: G2, privateContexts: seq<PrivateContextSimple>)
    requires DealerInput(threshold, sharesNum, f) && Blinders(bs, NewFftDomain(sharesNum).value.Size())
    ensures |privateContexts| == Pow2(CeilLog2(sharesNum)) >= sharesNum
    ensures SimpleSetup(privateContexts, f, NewFftDomain(sharesNum).value, bs)
    ensures pubkey == Mul(G1_GENERATOR, Eval(f, 0)) && privkey == Mul(G2_GENERATOR, Eval(f, 0))
  {
    hide Mul, NewFftDomain, Pow, Pow2, Eval, Blind;
    var d := NewFftDomain(sharesNum).value;
    var n := d.Size();
    var evals := Fft(d, f);
    var sharesX := d.Elements();
    var pubkeyShares := FastMultiexp(evals, G1_GENERATOR);
    var privkeyShares := FastMultiexp(evals, G2_GENERATOR);
    MultiexpOfGenerator(evals);
    var x := f[0];
    EvalAtZero(f);
    pubkey, privkey := Mul(G1_GENERATOR, x), Mul(G2_GENERATOR, x);

    privateContexts := [];
    var publicContexts := [];
    for index := 0 to n
      invariant |privateContexts| == index && |publicContexts| == index
      invariant publicContexts == SimplePublics(f, d, bs)[..index]
      invariant forall i :: 0 <= i < index ==>
                  privateContexts[i] == PrivateContextSimple(i, ParamsFor(bs[i]), Eval(f, d.Element(i)), [], bs[i])
    {
      var b := bs[index];
      privateContexts := privateContexts +
        [PrivateContextSimple(index, ParamsFor(b), privkeyShares[index], [], b)];
      publicContexts := publicContexts +
        [PublicContextSimple(sharesX[index], pubkeyShares[index], Blind(privkeyShares[index], b),
                             G2_GENERATOR, Mul(G2_GENERATOR, b))];
    }
    for i := 0 to n
      invariant |privateContexts| == n
      invariant forall k :: 0 <= k < n ==>
                  privateContexts[k] == PrivateContextSimple(k, ParamsFor(bs[k]), Eval(f, d.Element(k)),
                                                             if k < i then publicContexts else [], bs[k])
    {
      privateContexts := privateContexts[i := privateContexts[i].(publicContexts := publicContexts)];
    }
  }

  // ----- the blinding check -----

  /** The check accepts exactly when alpha is zero or the blinded share is the
      blinding key raised to the exponent of the public share. */
  lemma VerifyBlindingExact(share: BlindedKeyShare, publicKeyShare: G1, alpha: F)
    ensures VerifyBlinding(share, publicKeyShare, alpha) <==>
            alpha == 0 || share.blindedKeyShare == Mul(publicKeyShare, share.blindingKey)
  {
    hide Mul, Add, ProductOfPairings;
    var a, k, z := publicKeyShare, share.blindingKey, share.blindedKeyShare;
    var alphaA, alphaZ := Add(1, Mul(a, alpha)), Add(k, Mul(z, alpha));
    PairingProductOfTwo(Neg(1), alphaZ, alphaA, k);
    MulMinusOne(alphaZ);
    assert VerifyBlinding(share, a, alpha) <==> Mul(alphaA, k) == alphaZ by { NegCancel(alphaZ, Mul(alphaA, k)); }
    assert Mul(alphaA, k) == Add(k, Mul(alpha, Mul(a, k))) by {
      MulComm(alphaA, k);
      MulAdd(k, 1, Mul(a, alpha));
      MulZeroOne(k);
      MulComm(a, alpha);
      MulLeft(k, alpha, a);
      MulComm(k, a);
    }
    MulComm(z, alpha);
    AddCancel(k, Mul(alpha, Mul(a, k)), Mul(alpha, z));
    MulZeroOne(Mul(a, k));
    MulZeroOne(z);
    if alpha != 0 && Mul(alpha, Mul(a, k)) == Mul(alpha, z) { MulCancel(alpha, Mul(a, k), z); }
  }

  /** The keys that `setup_fast` publishes pass the check only in degenerate cases,
      because their blinded share was multiplied by minus the inverse domain point. */
  lemma FastBlindingRejected(f: Poly, d: FftDomain, b: F, i: nat, alpha: F)
    requires d.Valid() && b != 0 && alpha != 0
    ensures var c := FastPublic(f, d, b, i);
            VerifyBlinding(c.blindedKeyShare, c.publicKeyShare, alpha) <==>
            c.publicKeyShare == 0 || d.Element(i) == Neg(1)
  {
    hide Mul, VerifyBlinding, Eval, Pow;
    var c := FastPublic(f, d, b, i);
    var w, y := d.Element(i), c.publicKeyShare;
    VerifyBlindingExact(c.blindedKeyShare, y, alpha);
    ElementNonZero(d, i);
    MulZeroOne(b);
    var z := Mul(y, b);
    assert c.blindedKeyShare == BlindedKeyShare(b, Mul(z, Neg(Inv(w))));
    MulNonZero(y, b);
    if z == 0 {
      MulZeroOne(Neg(Inv(w)));
    } else {
      MulZeroOne(z);
      if Mul(z, Neg(Inv(w))) == z { MulCancel(z, Neg(Inv(w)), 1); }
      NegInvOne(w);
    }
  }

  /** The keys that `setup_simple` publishes pass the check, and no other key would for
      the same public share and blinder. */
  lemma SimpleBlindingAccepted(f: Poly, d: FftDomain, b: F, i: nat, alpha: F, other: G2)
    ensures var c := SimplePublic(f, d, b, i);
            && VerifyBlinding(c.blindedKeyShare, c.publicKeyShare, alpha)
            && c.publicKeyShare == Mul(G1_GENERATOR, Eval(f, d.Element(i)))
            && (alpha != 0 && VerifyBlinding(c.blindedKeyShare.(blindedKeyShare := other), c.publicKeyShare, alpha) ==>
                  other == c.blindedKeyShare.blindedKeyShare)
  {
    hide Mul, VerifyBlinding, Eval, Pow;
    var c := SimplePublic(f, d, b, i);
    VerifyBlindingExact(c.blindedKeyShare, c.publicKeyShare, alpha);
    VerifyBlindingExact(c.blindedKeyShare.(blindedKeyShare := other), c.publicKeyShare, alpha);
    MulZeroOne(b);
    MulZeroOne(c.publicKeyShare);
  }

  /** What the published fast contexts hold besides the key: the domain point, the
      commitment to the value there, and what the checks of shares demand. */
  lemma FastPublished(f: Poly, d: FftDomain, bs: seq<F>, i: nat)
    requires d.Valid() && i < |bs|
    ensures var c := FastPublics(f, d, bs)[i];
            && c.domain == c.lagrangeN0 == d.Element(i) && c.publicKeyShare == Mul(G1_GENERATOR, Eval(f, c.domain))
            && c.blindedKeyShare.blindingKey == Mul(G2_GENERATOR, bs[i]) && Add(c.hInv, G2_GENERATOR) == 0
            && Mul(c.blindedKeyShare.blindedKeyShare, Neg(c.domain)) == Mul(Eval(f, c.domain), bs[i])
  {
    hide Mul, Eval, Pow;
    ElementNonZero(d, i);
    var w, z := d.Element(i), Mul(Eval(f, d.Element(i)), bs[i]);
    MulZeroOne(Eval(f, w));
    MulAssoc(z, Neg(Inv(w)), Neg(w));
    NegTimesNeg(Inv(w), w);
    MulComm(Inv(w), w);
    MulZeroOne(z);
  }

  lemma NegTimesNeg(a: F, b: F)
    ensures Mul(Neg(a), Neg(b)) == Mul(a, b)
  {
    hide Mul;
    MulNeg(Neg(a), b);
    MulComm(Neg(a), b);
    MulNeg(b, a);
    MulComm(a, b);
    NegCancel(Mul(a, b), 0);
  }

  lemma SimplePublished(f: Poly, d: FftDomain, bs: seq<F>, i: nat)
    requires i < |bs|
    ensures var c := SimplePublics(f, d, bs)[i];
            && c.domain == d.Element(i) && c.publicKeyShare == Mul(G1_GENERATOR, Eval(f, c.domain))
            && c.h == G2_GENERATOR && c.validatorPublicKey == Mul(c.h, bs[i])
            && c.blindedKeyShare == Blind(Mul(G2_GENERATOR, Eval(f, c.domain)), bs[i])
  {
    hide Mul, Eval, Pow;
    MulZeroOne(Eval(f, d.Element(i)));
  }

  /** The first participant's key of the constant polynomial one is rejected, for every
      domain, blinder and random element of the check. */
  lemma FastBlindingExample(d: FftDomain, b: F, alpha: F)
    requires d.Valid() && b != 0 && alpha != 0
    ensures var c := FastPublic([1], d, b, 0);
            P > 2 ==> !VerifyBlinding(c.blindedKeyShare, c.publicKeyShare, alpha)
  {
    hide Mul, VerifyBlinding, Eval, MultiplyByOmegaInv, Blind;
    FastBlindingRejected([1], d, b, 0, alpha);
    EvalConstant(1, d.Element(0));
  }

  /** -1/w = 1 exactly when w = -1. */
  lemma NegInvOne(w: F)
    requires w != 0
    ensures Neg(Inv(w)) == 1 <==> w == Neg(1)
  {
    hide Mul;
    MulNeg(w, Inv(w));
    MulZeroOne(w);
    MulNeg(Neg(1), Neg(1));
    MulMinusOne(1);
    MulZeroOne(Neg(1));
    MulMinusOne(Neg(1));
    if w == Neg(1) { InvUnique(w, Neg(1)); }
  }
}
