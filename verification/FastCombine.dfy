/** The fast combination against the simple one: equal for an even number of shares,
    inverse to each other for an odd number. */
module FastCombine {
  import opened Sequences
  import opened Field
  import opened Polynomials
  import opened RootProducts
  import opened Combinations
  import opened SubproductTree
  import opened EvaluationDomains
  import opened Sums
  import opened Groups
  import opened Lagrange
  import opened Ciphertexts
  import opened Contexts
  import opened Decryption
  import opened Combine

  /** A dealer's outcome: f over d with invertible blinders bs. */
  ghost predicate Dealt(f: Poly, d: FftDomain, bs: seq<F>) {
    d.Valid() && |bs| <= d.Size() && forall i :: 0 <= i < |bs| ==> bs[i] != 0
  }

  /** The shares name pairwise different participants. */
  ghost predicate DistinctDecrypters(shares: seq<ShareFast>) {
    forall i, j :: 0 <= i < j < |shares| ==> shares[i].decrypterIndex != shares[j].decrypterIndex
  }

  /** Each share is [1/b] U for the blinder of the participant it names. */
  ghost predicate HonestShares(bs: seq<F>, u: G1, shares: seq<ShareFast>) {
    forall i :: 0 <= i < |shares| ==>
      && shares[i].decrypterIndex < |bs|
      && bs[shares[i].decrypterIndex] != 0
      && shares[i].decryptionShare == Mul(u, Inv(bs[shares[i].decrypterIndex]))
  }

  lemma DomainIsDistinct(f: Poly, d: FftDomain, bs: seq<F>, shares: seq<ShareFast>)
    requires Dealt(f, d, bs) && DistinctDecrypters(shares)
    requires IndicesInRange(FastPublics(f, d, bs), shares)
    ensures var xs := DomainOf(FastPublics(f, d, bs), shares);
            Distinct(xs) && forall i :: 0 <= i < |xs| ==> xs[i] == d.Element(shares[i].decrypterIndex)
  {
    hide Pow, Eval, Pow2, MultiplyByOmegaInv, Blind;
    ElementsDistinct(d);
    var all, xs := d.Elements(), DomainOf(FastPublics(f, d, bs), shares);
    forall i, j | 0 <= i < j < |xs| ensures xs[i] != xs[j] {
      var k, l := shares[i].decrypterIndex, shares[j].decrypterIndex;
      assert all[k] == xs[i] && all[l] == xs[j];
    }
  }

  /** (u / b)((y b) m k) = u ((m k) y) */
  lemma TermAlgebra(u: F, b: F, y: F, m: F, k: F)
    requires b != 0
    ensures Mul(Mul(u, Inv(b)), Mul(Mul(Mul(y, b), m), k)) == Mul(u, Mul(Mul(m, k), y))
  {
    hide Mul;
    var e := Mul(m, k);
    MulAssoc(Mul(y, b), m, k);
    MulAssoc(u, Inv(b), Mul(Mul(y, b), e));
    MulAssoc(y, b, e);
    MulLeft(y, b, e);
    MulAssoc(Inv(b), b, Mul(y, e));
    MulComm(Inv(b), b);
    MulZeroOne(Mul(y, e));
    MulComm(y, e);
  }

  /** One pairing of the fast combination: U times the signed Lagrange term. */
  lemma FastTerm(f: Poly, d: FftDomain, bs: seq<F>, u: G1, shares: seq<ShareFast>, i: nat)
    requires Dealt(f, d, bs) && DistinctDecrypters(shares) && HonestShares(bs, u, shares) && i < |shares|
    requires IndicesInRange(FastPublics(f, d, bs), shares)
    ensures var pubs := FastPublics(f, d, bs);
            var xs := DomainOf(pubs, shares);
            Mul(FastValues(shares)[i], Prepared(pubs, shares)[i]) ==
            Mul(u, Mul(Mul(Sign(|xs|), Basis(xs, 0)[i]), Eval(f, xs[i])))
  {
    hide Mul, Eval, Basis, Weight, Distinct, ProductOf, Sign, Pow, Pow2, DistinctDecrypters;
    var pubs := FastPublics(f, d, bs);
    var xs := DomainOf(pubs, shares);
    var n := shares[i].decrypterIndex;
    DomainIsDistinct(f, d, bs, shares);
    ElementNonZero(d, n);
    FastCoefficient(xs, i);
    assert ContributionsOf(pubs, shares) == xs;
    var k := Mul(ProductOf(xs), Inv(Weight(xs, i)));
    assert Prepared(pubs, shares)[i] == Mul(Mul(Mul(Eval(f, xs[i]), bs[n]), Neg(Inv(xs[i]))), k);
    TermAlgebra(u, bs[n], Eval(f, xs[i]), Neg(Inv(xs[i])), k);
  }

  /** The fast combination of honest shares of any participants, however few: U to the
      value at zero of the polynomial through their points, to the power (-1)^|shares|. */
  lemma FastInterpolates(f: Poly, d: FftDomain, bs: seq<F>, u: G1, shares: seq<ShareFast>)
    requires Dealt(f, d, bs) && DistinctDecrypters(shares) && HonestShares(bs, u, shares)
    requires IndicesInRange(FastPublics(f, d, bs), shares)
    ensures var xs := DomainOf(FastPublics(f, d, bs), shares);
            && Distinct(xs)
            && Dot(FastValues(shares), Prepared(FastPublics(f, d, bs), shares)) ==
               Mul(Sign(|shares|), Pairing(u, Eval(Interpolant(xs, Values(f, xs)), 0)))
  {
    hide Mul, Eval, Basis, Sign, Trim, Sum, DomainOf, FastValues, Prepared, Interpolant;
    var pubs := FastPublics(f, d, bs);
    var xs := DomainOf(pubs, shares);
    DomainIsDistinct(f, d, bs, shares);
    var s := Sign(|shares|);
    var l, v := Basis(xs, 0), Values(f, xs);
    forall i | 0 <= i < |shares|
      ensures Mul(FastValues(shares)[i], Prepared(pubs, shares)[i]) == Mul(Mul(s, u), Mul(l[i], v[i]))
    {
      FastTerm(f, d, bs, u, shares, i);
      MulAssoc(s, l[i], v[i]);
      MulLeft(u, s, Mul(l[i], v[i]));
      MulAssoc(s, u, Mul(l[i], v[i]));
    }
    assert Products(FastValues(shares), Prepared(pubs, shares)) == ScaleAll(Mul(s, u), Products(l, v));
    SumScale(Mul(s, u), Products(l, v));
    BasisInterpolates(xs, v);
    MulAssoc(s, u, Eval(Interpolant(xs, v), 0));
  }

  /** The coefficients at zero combine any values to the value of their interpolant. */
  lemma BasisInterpolates(xs: seq<F>, v: seq<F>)
    requires Distinct(xs) && |v| == |xs|
    ensures Dot(Basis(xs, 0), v) == Eval(Interpolant(xs, v), 0)
  {
    hide Mul, Eval, Basis, Dot, Interpolant, Values, Distinct, Trim;
    var g := Interpolant(xs, v);
    EvaluateInterpolant(xs, v);
    TrimCanonical(g);
    BasisReproduces(xs, 0, g);
  }

  /** With at least as many shares as f has coefficients: the secret to the power
      (-1)^|shares|. */
  lemma FastCombines(f: Poly, d: FftDomain, bs: seq<F>, u: G1, shares: seq<ShareFast>)
    requires Dealt(f, d, bs) && DistinctDecrypters(shares) && HonestShares(bs, u, shares)
    requires IndicesInRange(FastPublics(f, d, bs), shares)
    requires |Trim(f)| <= |shares|
    ensures Dot(FastValues(shares), Prepared(FastPublics(f, d, bs), shares)) ==
            Mul(Sign(|shares|), Pairing(u, Eval(f, 0)))
  {
    hide Mul, Eval, Sign, Trim, FastValues, Prepared, Interpolant, Dot, HonestShares, DistinctDecrypters, Values,
         Distinct;
    var xs := DomainOf(FastPublics(f, d, bs), shares);
    FastInterpolates(f, d, bs, u, shares);
    InterpolateValues(xs, f);
    EvalTrim(f, 0);
  }

  /** a = -a only for zero, unless the field has characteristic two. */
  lemma SignedEqual(n: nat, a: F)
    ensures Mul(Sign(n), a) == a <==> n % 2 == 0 || a == 0 || P == 2
  {
    hide Mul;
    MulZeroOne(a);
    MulMinusOne(a);
    OwnNegative(a);
  }

  lemma OwnNegative(a: F)
    ensures Neg(a) == a <==> a == 0 || P == 2
  {
    assert IsPrime(P);
    assert P == 2 * a ==> P % 2 == 0;
  }

  /** The fast path yields the simple path's secret exactly when the number of shares is
      even, apart from a trivial secret or a field of characteristic two. */
  lemma FastIsSimpleIff(f: Poly, d: FftDomain, bs: seq<F>, u: G1, shares: seq<ShareFast>, simple: seq<ShareSimple>)
    requires Dealt(f, d, bs) && DistinctDecrypters(shares) && HonestShares(bs, u, shares)
    requires IndicesInRange(FastPublics(f, d, bs), shares)
    requires |Trim(f)| <= |shares| == |simple|
    requires forall i :: 0 <= i < |simple| ==>
               simple[i].decryptionShare == Pairing(u, Eval(f, d.Element(shares[i].decrypterIndex)))
    ensures var pubs := FastPublics(f, d, bs);
            var fast := Dot(FastValues(shares), Prepared(pubs, shares));
            var secret := ShareCombineSimple(simple, Basis(DomainOf(pubs, shares), 0));
            && fast == Mul(Sign(|shares|), secret)
            && (fast == secret <==> |shares| % 2 == 0 || secret == GT_ONE || P == 2)
  {
    hide Mul, Eval, Basis, Sign, Trim, ShareCombineSimple, Dot, Distinct, Prepared, FastValues, Pow, DomainOf;
    DomainIsDistinct(f, d, bs, shares);
    FastCombines(f, d, bs, u, shares);
    SimpleCombines(f, DomainOf(FastPublics(f, d, bs), shares), u, simple);
    SignedEqual(|shares|, Pairing(u, Eval(f, 0)));
  }

  /** A dealt field in which one share already shows the wrong sign. */
  lemma OddCountExample()
    ensures P > 2 ==>
            exists f: Poly, d: FftDomain, bs: seq<F>, u: G1, shares: seq<ShareFast> ::
              && Dealt(f, d, bs) && DistinctDecrypters(shares) && HonestShares(bs, u, shares)
              && IndicesInRange(FastPublics(f, d, bs), shares) && |Trim(f)| <= |shares|
              && Dot(FastValues(shares), Prepared(FastPublics(f, d, bs), shares)) != Pairing(u, Eval(f, 0))
  {
    hide Mul, Eval, Sign, Dot, Prepared, FastValues;
    var f: Poly, bs: seq<F>, u: G1 := [1], [1], 1;
    var d := FftDomain(0, 1);
    var shares := [ShareFast(0, Mul(u, Inv(1)))];
    PowOne(1);
    assert d.Valid();
    FastCombines(f, d, bs, u, shares);
    EvalConstant(1, 0);
    MulZeroOne(1);
    SignedEqual(1, 1);
    assert Dealt(f, d, bs) && DistinctDecrypters(shares) && HonestShares(bs, u, shares);
  }

  /** What `checked_share_combine_fast` accepts is fixed by U and the participants alone,
      whoever made the shares and however few they are; with at least as many as f has
      coefficients it is the signed secret. */
  lemma CheckedCombineIsFixed(f: Poly, d: FftDomain, bs: seq<F>, c: Ciphertext, shares: seq<ShareFast>)
    requires Dealt(f, d, bs) && DistinctDecrypters(shares)
    requires IndicesInRange(FastPublics(f, d, bs), shares)
    requires AllSharesRight(FastPublics(f, d, bs), c, shares)
    ensures HonestShares(bs, c.commitment, shares)
    ensures var xs := DomainOf(FastPublics(f, d, bs), shares);
            var combined := Dot(FastValues(shares), Prepared(FastPublics(f, d, bs), shares));
            && Distinct(xs)
            && combined == Mul(Sign(|shares|), Pairing(c.commitment, Eval(Interpolant(xs, Values(f, xs)), 0)))
            && (|Trim(f)| <= |shares| ==> combined == Mul(Sign(|shares|), Pairing(c.commitment, Eval(f, 0))))
  {
    hide Mul, Eval, Sign, Dot, Prepared, FastValues, Trim, Pow, Interpolant, Values, Distinct, DomainOf;
    AcceptedAreHonest(f, d, bs, c, shares);
    FastInterpolates(f, d, bs, c.commitment, shares);
    if |Trim(f)| <= |shares| {
      FastCombines(f, d, bs, c.commitment, shares);
    }
  }

  lemma AcceptedAreHonest(f: Poly, d: FftDomain, bs: seq<F>, c: Ciphertext, shares: seq<ShareFast>)
    requires Dealt(f, d, bs) && IndicesInRange(FastPublics(f, d, bs), shares)
    requires AllSharesRight(FastPublics(f, d, bs), c, shares)
    ensures HonestShares(bs, c.commitment, shares)
  {
    hide Mul, Eval, ShareError, Pow;
    var pubs := FastPublics(f, d, bs);
    forall i | 0 <= i < |shares|
      ensures shares[i].decryptionShare == Mul(c.commitment, Inv(bs[shares[i].decrypterIndex]))
    {
      var n := shares[i].decrypterIndex;
      assert BlindingKeyOf(pubs, shares[i]) == Mul(G2_GENERATOR, bs[n]);
      RightFastShare(bs[n], c.commitment, shares[i].decryptionShare);
    }
  }
}
