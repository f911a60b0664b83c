/** Combining decryption shares into the shared secret: the simple way with Lagrange
    coefficients at zero, and the fast way through the subproduct tree. */
module Combine {
  import opened Sequences
  import opened Field
  import opened Polynomials
  import opened Wrappers
  import opened RootProducts
  import opened SubproductTree
  import opened Sums
  import opened Groups
  import opened Lagrange
  import opened Ciphertexts
  import opened Contexts
  import opened Decryption

  // ----- the simple way -----

  function SimpleValues(shares: seq<ShareSimple>): (r: seq<GT>)
    ensures |r| == |shares|
  {
    seq(|shares|, i requires 0 <= i < |shares| => shares[i].decryptionShare)
  }

  /** `share_combine_simple`: the product of C_i^(L_i) over the shorter list. */
  function ShareCombineSimple(shares: seq<ShareSimple>, lagrangeCoeffs: seq<F>): GT {
    Dot(SimpleValues(shares), lagrangeCoeffs)
  }

  function PrecomputedValues(shares: seq<SharePrecomputed>): (r: seq<GT>)
    ensures |r| == |shares|
  {
    seq(|shares|, i requires 0 <= i < |shares| => shares[i].decryptionShare)
  }

  /** `share_combine_simple_precomputed` */
  function ShareCombinePrecomputed(shares: seq<SharePrecomputed>): GT {
    Sum(PrecomputedValues(shares))
  }

  /** For any shares and coefficients: one more of each multiplies by C^L, nothing
      combines to the neutral element, and what has no partner is ignored. */
  lemma CombineSimpleSteps(shares: seq<ShareSimple>, l: seq<F>, share: ShareSimple, coefficient: F)
    ensures |shares| == |l| ==>
              ShareCombineSimple(shares + [share], l + [coefficient]) ==
              Add(ShareCombineSimple(shares, l), Mul(share.decryptionShare, coefficient))
    ensures ShareCombineSimple([], []) == GT_ONE
    ensures var n := if |shares| < |l| then |shares| else |l|;
            ShareCombineSimple(shares, l) == ShareCombineSimple(shares[..n], l[..n])
  {
    hide Mul, Add, Dot;
    var n := if |shares| < |l| then |shares| else |l|;
    assert SimpleValues(shares + [share]) == SimpleValues(shares) + [share.decryptionShare];
    assert SimpleValues(shares[..n]) == SimpleValues(shares)[..n];
    assert SimpleValues([]) == [];
    if |shares| == |l| { DotSnoc(SimpleValues(shares), l, share.decryptionShare, coefficient); }
    DotSnoc([], [], 0, 0);
    DotCut(SimpleValues(shares), l);
  }

  lemma CombinePrecomputedSteps(shares: seq<SharePrecomputed>, share: SharePrecomputed)
    ensures ShareCombinePrecomputed(shares + [share]) == Add(ShareCombinePrecomputed(shares), share.decryptionShare)
    ensures ShareCombinePrecomputed([]) == GT_ONE
  {
    hide Add, Sum;
    assert PrecomputedValues(shares + [share]) == PrecomputedValues(shares) + [share.decryptionShare];
    assert PrecomputedValues([]) == [];
    SumSnoc(PrecomputedValues(shares), share.decryptionShare);
    SumOne(0);
  }

  /** The shares e(U, Z_i) of a polynomial f dealt at distinct points, at least as many
      as f has coefficients, combine to e(U, h^f(0)). */
  lemma SimpleCombines(f: Poly, xs: seq<F>, u: G1, shares: seq<ShareSimple>)
    requires Distinct(xs) && |Trim(f)| <= |xs| && |shares| == |xs|
    requires forall i :: 0 <= i < |xs| ==> shares[i].decryptionShare == Pairing(u, Eval(f, xs[i]))
    ensures ShareCombineSimple(shares, Basis(xs, 0)) == Pairing(u, Eval(f, 0))
  {
    hide Mul, Eval, Basis, Sum, Trim;
    assert SimpleValues(shares) == ScaleAll(u, Values(f, xs));
    BasisReproduces(xs, 0, f);
    DotComm(SimpleValues(shares), Basis(xs, 0));
    DotScale(u, Basis(xs, 0), Values(f, xs));
  }

  /** Raising U to the coefficient beforehand gives the same secret. */
  lemma PrecomputedCombines(f: Poly, xs: seq<F>, u: G1, shares: seq<SharePrecomputed>)
    requires Distinct(xs) && |Trim(f)| <= |xs| && |shares| == |xs|
    requires forall i :: 0 <= i < |xs| ==>
               shares[i].decryptionShare == Pairing(Mul(u, Basis(xs, 0)[i]), Eval(f, xs[i]))
    ensures ShareCombinePrecomputed(shares) == Pairing(u, Eval(f, 0))
  {
    hide Mul, Eval, Basis, Sum, Trim;
    var l, v := Basis(xs, 0), Values(f, xs);
    assert PrecomputedValues(shares) == Products(ScaleAll(u, l), v);
    BasisReproduces(xs, 0, f);
    DotScale(u, l, v);
  }

  // ----- the fast way -----

  /** The product of a list, taken from left to right. */
  function ProductOf(s: seq<F>): F {
    if s == [] then 1 else Mul(ProductOf(s[..|s| - 1]), s[|s| - 1])
  }

  lemma ProductSnoc(s: seq<F>, x: F)
    ensures ProductOf(s + [x]) == Mul(ProductOf(s), x)
  {
    hide Mul;
    assert (s + [x])[..|s|] == s;
  }

  /** The domain points of the decrypters that the shares name. */
  function DomainOf(pubContexts: seq<PublicContextFast>, shares: seq<ShareFast>): (r: seq<F>)
    requires IndicesInRange(pubContexts, shares)
    ensures |r| == |shares|
  {
    seq(|shares|, i requires 0 <= i < |shares| => pubContexts[shares[i].decrypterIndex].domain)
  }

  function ContributionsOf(pubContexts: seq<PublicContextFast>, shares: seq<ShareFast>): (r: seq<F>)
    requires IndicesInRange(pubContexts, shares)
    ensures |r| == |shares|
  {
    seq(|shares|, i requires 0 <= i < |shares| => pubContexts[shares[i].decrypterIndex].lagrangeN0)
  }

  /** `batch_inversion_and_mul` on one entry: coeff / v, and zero stays zero. */
  function InvertAndMul(v: F, coeff: F): F {
    if v == 0 then 0 else Mul(coeff, Inv(v))
  }

  /** [L_i n_0] of the i-th blinded key share */
  function Prepared(pubContexts: seq<PublicContextFast>, shares: seq<ShareFast>): (r: seq<G2>)
    requires IndicesInRange(pubContexts, shares)
    ensures |r| == |shares|
  {
    var n0, w := ProductOf(ContributionsOf(pubContexts, shares)), Weights(DomainOf(pubContexts, shares));
    seq(|shares|, i requires 0 <= i < |shares| =>
      Mul(pubContexts[shares[i].decrypterIndex].blindedKeyShare.blindedKeyShare, InvertAndMul(w[i], n0)))
  }

  /** For any contexts of different decrypters: the prepared key times the product of the
      differences of the domain points is the blinded key share times the product of the
      decrypters' contributions, each under its own index. */
  lemma PreparedEquation(pubContexts: seq<PublicContextFast>, shares: seq<ShareFast>, xs: seq<F>, n: seq<F>, i: nat)
    requires IndicesInRange(pubContexts, shares) && i < |shares| == |xs| == |n|
    requires forall k :: 0 <= k < |shares| ==>
               && xs[k] == pubContexts[shares[k].decrypterIndex].domain
               && n[k] == pubContexts[shares[k].decrypterIndex].lagrangeN0
    requires Distinct(xs)
    ensures Mul(Prepared(pubContexts, shares)[i], Weight(xs, i)) ==
            Mul(pubContexts[shares[i].decrypterIndex].blindedKeyShare.blindedKeyShare, ProductOf(n))
  {
    hide Mul, ProductOf, Weight;
    assert xs == DomainOf(pubContexts, shares) && n == ContributionsOf(pubContexts, shares);
    DistinctIffWeights(xs);
    WeightsAt(xs);
    var w, z := Weight(xs, i), pubContexts[shares[i].decrypterIndex].blindedKeyShare.blindedKeyShare;
    MulAssoc(z, Mul(ProductOf(n), Inv(w)), w);
    DivMul(ProductOf(n), w);
  }

  /** `prepare_combine_fast`.  `inBounds` is that of the subproduct tree: it holds
      exactly when no decrypter is named twice over. */
  method PrepareCombineFast(pubContexts: seq<PublicContextFast>, shares: seq<ShareFast>)
    returns (prepared: seq<G2>, inBounds: bool)
    requires shares != [] && IndicesInRange(pubContexts, shares)
    ensures prepared == Prepared(pubContexts, shares)
    ensures inBounds <==> Distinct(DomainOf(pubContexts, shares))
  {
    hide Mul, Weights, ProductOf, Distinct, NewTree, InvertAndMul;
    ghost var contributions := ContributionsOf(pubContexts, shares);
    var domain := [];
    var n0 := 1;
    EmptyProductOf();
    for i := 0 to |shares|
      invariant domain == DomainOf(pubContexts, shares)[..i]
      invariant n0 == ProductOf(contributions[..i])
    {
      var ctx := pubContexts[shares[i].decrypterIndex];
      domain := domain + [ctx.domain];
      assert contributions[..i + 1] == contributions[..i] + [ctx.lagrangeN0];
      ProductSnoc(contributions[..i], ctx.lagrangeN0);
      n0 := Mul(n0, ctx.lagrangeN0);
    }
    assert contributions[..|shares|] == contributions;
    assert domain == DomainOf(pubContexts, shares);
    var lagrange;
    lagrange, inBounds := InverseLagrangeCoefficients(NewTree(domain), domain);
    prepared := [];
    for i := 0 to |shares|
      invariant |prepared| == i
      invariant forall k :: 0 <= k < i ==> prepared[k] == Prepared(pubContexts, shares)[k]
    {
      var decrypter := pubContexts[shares[i].decrypterIndex];
      prepared := prepared + [Mul(decrypter.blindedKeyShare.blindedKeyShare, InvertAndMul(lagrange[i], n0))];
    }
  }

  lemma EmptyProductOf()
    ensures ProductOf([]) == 1
  {
  }

  function FastValues(shares: seq<ShareFast>): (r: seq<G1>)
    ensures |r| == |shares|
  {
    seq(|shares|, i requires 0 <= i < |shares| => shares[i].decryptionShare)
  }

  /** `share_combine_fast`: pairs up to the shorter list. */
  method ShareCombineFast(shares: seq<ShareFast>, prepared: seq<G2>) returns (s: GT)
    ensures s == Dot(FastValues(shares), prepared)
  {
    hide Mul, Sum, Pairing;
    var pairingProduct := [];
    var n := if |shares| < |prepared| then |shares| else |prepared|;
    for i := 0 to n
      invariant |pairingProduct| == i
      invariant forall k :: 0 <= k < i ==> pairingProduct[k] == (shares[k].decryptionShare, prepared[k])
    {
      pairingProduct := pairingProduct + [(shares[i].decryptionShare, prepared[i])];
    }
    TermsAreProducts(pairingProduct, FastValues(shares), prepared);
    s := ProductOfPairings(pairingProduct);
  }

  lemma TermsAreProducts(pairs: seq<(G1, G2)>, a: seq<G1>, b: seq<G2>)
    requires |pairs| == if |a| < |b| then |a| else |b|
    requires forall k :: 0 <= k < |pairs| ==> pairs[k] == (a[k], b[k])
    ensures ProductOfPairings(pairs) == Dot(a, b)
  {
    hide Mul, Sum;
    assert PairingTerms(pairs) == Products(a, b);
  }

  /** `checked_share_combine_fast` */
  method CheckedShareCombineFast(pubContexts: seq<PublicContextFast>, c: Ciphertext,
                                 shares: seq<ShareFast>, prepared: seq<G2>) returns (r: Result<GT, Error>)
    requires pubContexts != [] && pubContexts[0].hInv == Neg(G2_GENERATOR)
    requires IndicesInRange(pubContexts, shares)
    ensures r == if AllSharesRight(pubContexts, c, shares)
                 then Ok(Dot(FastValues(shares), prepared))
                 else Err(DecryptionShareVerificationFailed)
  {
    hide Dot, AllSharesRight;
    var valid := VerifySharesFast(pubContexts, c, shares);
    if !valid {
      return Err(DecryptionShareVerificationFailed);
    }
    var s := ShareCombineFast(shares, prepared);
    r := Ok(s);
  }

  // ----- the fast secret against the simple one -----

  /** (-1)^n */
  function Sign(n: nat): F { if n % 2 == 0 then 1 else Neg(1) }

  lemma SignSucc(n: nat)
    ensures Sign(n + 1) == Neg(Sign(n))
  {
    NegCancel(1, 0);
  }

  /** prod (0 - u_i) = (-1)^n prod u_i */
  lemma {:induction false} NodesAtZero(u: seq<F>)
    ensures DiffProduct(u, 0) == Mul(Sign(|u|), ProductOf(u))
  {
    hide Mul, DiffProduct, Sign;
    if u == [] {
      EmptyProduct(0);
      SignZero();
      MulZeroOne(1);
    } else {
      var t, a := u[..|u| - 1], u[|u| - 1];
      assert u == t + [a];
      NodesAtZero(t);
      DiffProductSnoc(t, a, 0);
      SignSucc(|t|);
      NegateProduct(Sign(|t|), ProductOf(t), a);
    }
  }

  lemma SignZero()
    ensures Sign(0) == 1
  {
  }

  /** (s p)(0 - a) = (-s)(p a) */
  lemma NegateProduct(s: F, p: F, a: F)
    ensures Mul(Mul(s, p), Sub(0, a)) == Mul(Neg(s), Mul(p, a))
  {
    hide Mul;
    assert Sub(0, a) == Neg(a);
    MulNeg(Mul(s, p), a);
    MulAssoc(s, p, a);
    MulComm(Neg(s), Mul(p, a));
    MulNeg(Mul(p, a), s);
    MulComm(Mul(p, a), s);
  }

  lemma {:induction false} ProductConcat(s: seq<F>, t: seq<F>)
    ensures ProductOf(s + t) == Mul(ProductOf(s), ProductOf(t))
  {
    hide Mul;
    if t == [] {
      assert s + t == s;
      MulZeroOne(ProductOf(s));
    } else {
      var t', x := t[..|t| - 1], t[|t| - 1];
      assert s + t == (s + t') + [x];
      ProductSnoc(s + t', x);
      ProductConcat(s, t');
      MulAssoc(ProductOf(s), ProductOf(t'), x);
    }
  }

  /** prod u = u_i prod_(j != i) u_j */
  lemma ProductRemove(u: seq<F>, i: nat)
    requires i < |u|
    ensures ProductOf(u) == Mul(u[i], ProductOf(Others(u, i)))
  {
    hide Mul, ProductOf;
    var a, x, b := u[..i], u[i], u[i + 1..];
    ProductOfParts(a, x, b);
    SplitAt(u, i);
  }

  lemma SplitAt(u: seq<F>, i: nat)
    requires i < |u|
    ensures u == (u[..i] + [u[i]]) + u[i + 1..]
  {
  }

  lemma ProductOfParts(a: seq<F>, x: F, b: seq<F>)
    ensures ProductOf((a + [x]) + b) == Mul(x, ProductOf(a + b))
  {
    hide *;
    ProductConcat(a + [x], b);
    ProductSnoc(a, x);
    ProductConcat(a, b);
    MulComm(ProductOf(a), x);
    MulAssoc(x, ProductOf(a), ProductOf(b));
  }

  /** The fast coefficient - n_0 / (u_i prod_(j != i) (u_i - u_j)) is (-1)^n times the
      Lagrange coefficient at zero. */
  lemma FastCoefficient(u: seq<F>, i: nat)
    requires Distinct(u) && i < |u| && u[i] != 0
    ensures Weight(u, i) != 0
    ensures Mul(Neg(Inv(u[i])), Mul(ProductOf(u), Inv(Weight(u, i)))) == Mul(Sign(|u|), Basis(u, 0)[i])
  {
    hide Mul, Basis, DiffProduct, ProductOf, Sign, Distinct, Weight;
    BasisIsRatio(u, 0, i);
    var o, w, x := Others(u, i), Inv(Weight(u, i)), u[i];
    NodesAtZero(o);
    ProductRemove(u, i);
    SignSucc(|o|);
    SignSquare(|o|);
    CoefficientAlgebra(x, ProductOf(o), w, Sign(|o|));
  }

  lemma SignSquare(n: nat)
    ensures Mul(Sign(n), Sign(n)) == 1
  {
    hide Mul;
    MulMinusOne(Neg(1));
    NegCancel(1, 0);
    MulZeroOne(1);
  }

  /** -(1/x) (x p) w = (-s)((s p) w) when s^2 = 1 */
  lemma CoefficientAlgebra(x: F, p: F, w: F, s: F)
    requires x != 0
    requires Mul(s, s) == 1
    ensures Mul(Neg(Inv(x)), Mul(Mul(x, p), w)) == Mul(Neg(s), Mul(Mul(s, p), w))
  {
    hide Mul;
    var q := Mul(p, w);
    MulAssoc(x, p, w);
    MulAssoc(s, p, w);
    NegTimes(Inv(x), Mul(x, q));
    MulAssoc(Inv(x), x, q);
    MulComm(Inv(x), x);
    NegTimes(s, Mul(s, q));
    MulAssoc(s, s, q);
  }

  lemma NegTimes(a: F, b: F)
    ensures Mul(Neg(a), b) == Neg(Mul(a, b))
  {
    hide Mul;
    MulComm(Neg(a), b);
    MulNeg(b, a);
    MulComm(a, b);
  }
}
