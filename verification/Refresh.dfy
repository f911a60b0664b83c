/** Proactive maintenance of key shares: refreshing them with a polynomial that
    vanishes at zero, and recovering a share with polynomials that vanish at its
    point. */
module Refresh {
  import opened Sequences
  import opened Field
  import opened Polynomials
  import opened SubproductTree
  import opened Sums
  import opened Groups
  import opened Lagrange

  // ----- polynomials with a given root -----

  /** `make_random_polynomial_at`: the random coefficients, with the constant term
      chosen so that the polynomial vanishes at the root. */
  method MakeRandomPolynomialAt(root: F, random: Poly) returns (poly: Poly)
    requires random != []
    ensures poly == VanishingAt(root, random)
    ensures |poly| == |random| && poly[1..] == random[1..] && Eval(poly, root) == 0
  {
    poly := random;
    poly := poly[0 := 0];
    var constant := Sub(0, Eval(poly, root));
    poly := poly[0 := constant];
    VanishingAtCorrect(root, random);
  }

  function VanishingAt(root: F, random: Poly): Poly
    requires random != []
  {
    random[0 := Sub(0, Eval(random[0 := 0], root))]
  }

  lemma VanishingAtCorrect(root: F, random: Poly)
    requires random != []
    ensures |VanishingAt(root, random)| == |random|
    ensures VanishingAt(root, random)[1..] == random[1..]
    ensures Eval(VanishingAt(root, random), root) == 0
  {
    hide Mul;
    var zeroed := random[0 := 0];
    var poly := VanishingAt(root, random);
    assert zeroed[1..] == random[1..] == poly[1..];
    AddZero(Mul(root, Eval(random[1..], root)));
    NegatedSum(Mul(root, Eval(random[1..], root)));
  }

  lemma NegatedSum(a: F)
    ensures Add(Sub(0, a), a) == 0
  {
  }

  /** Every polynomial with that root comes from some random coefficients. */
  lemma VanishingIsOnto(root: F, poly: Poly)
    requires poly != [] && Eval(poly, root) == 0
    ensures VanishingAt(root, poly) == poly
  {
    hide Mul;
    var rest := Mul(root, Eval(poly[1..], root));
    assert poly[0 := 0][1..] == poly[1..];
    AddZero(rest);
    OppositeTerms(poly[0], rest);
    assert poly[0 := poly[0]] == poly;
  }

  lemma OppositeTerms(a: F, b: F)
    requires Add(a, b) == 0
    ensures Sub(0, b) == a
  {
  }

  // ----- the operations on shares -----

  /** `prepare_share_updates_for_recovery`: one participant's update for every other. */
  function PrepareShareUpdates(domainPoints: seq<F>, h: G2, xr: F, random: Poly): (r: seq<G2>)
    requires random != []
    ensures |r| == |domainPoints|
  {
    ScaleAll(h, Values(VanishingAt(xr, random), domainPoints))
  }

  /** `update_share_for_recovery`: the share plus every update, folded in order. */
  function UpdateShare(share: G2, updates: seq<G2>): G2 {
    Sum([share] + updates)
  }

  /** `recover_share_from_updated_private_shares`; `zip_eq` demands equal lengths. */
  function RecoverShare(xr: F, domainPoints: seq<F>, updated: seq<G2>): G2
    requires |updated| == |domainPoints|
  {
    Dot(updated, Basis(domainPoints, xr))
  }

  /** `refresh_private_key_share` */
  function RefreshShare(h: G2, domainPoint: F, polynomial: Poly, share: G2): G2 {
    Add(share, Mul(h, Eval(polynomial, domainPoint)))
  }

  // ----- recovery -----

  /** The updates participant i receives, one from every dealer. */
  function UpdatesFor(dealt: seq<seq<G2>>, i: nat): (r: seq<G2>)
    requires forall k :: 0 <= k < |dealt| ==> i < |dealt[k]|
    ensures |r| == |dealt|
  {
    seq(|dealt|, k requires 0 <= k < |dealt| => dealt[k][i])
  }

  /** What every dealer sends out for the recovery at xr. */
  function DealUpdates(domainPoints: seq<F>, h: G2, xr: F, randoms: seq<Poly>): (r: seq<seq<G2>>)
    requires forall k :: 0 <= k < |randoms| ==> randoms[k] != []
    ensures |r| == |randoms| && forall k :: 0 <= k < |r| ==> |r[k]| == |domainPoints|
  {
    seq(|randoms|, k requires 0 <= k < |randoms| => PrepareShareUpdates(domainPoints, h, xr, randoms[k]))
  }

  /** The sum of the dealers' polynomials. */
  function SumOfVanishing(xr: F, randoms: seq<Poly>): Poly
    requires forall k :: 0 <= k < |randoms| ==> randoms[k] != []
  {
    if randoms == [] then [] else
      PolyAdd(SumOfVanishing(xr, randoms[..|randoms| - 1]), VanishingAt(xr, randoms[|randoms| - 1]))
  }

  /** A dealer sends h to the values, at the receivers' points, of its polynomial, which
      vanishes at xr and has the dealer's other coefficients. */
  lemma UpdatesOfDealer(domainPoints: seq<F>, h: G2, xr: F, random: Poly, i: nat)
    requires random != [] && i < |domainPoints|
    ensures var poly := VanishingAt(xr, random);
            && PrepareShareUpdates(domainPoints, h, xr, random)[i] == Mul(h, Eval(poly, domainPoints[i]))
            && Eval(poly, xr) == 0 && |poly| == |random| && poly[1..] == random[1..]
  {
    hide Mul, Eval, VanishingAt;
    VanishingAtCorrect(xr, random);
  }

  /** The values of the sum of the dealers' polynomials are the sums of their values. */
  lemma SumOfVanishingSteps(xr: F, randoms: seq<Poly>, random: Poly, x: F)
    requires random != [] && forall k :: 0 <= k < |randoms| ==> randoms[k] != []
    ensures Eval(SumOfVanishing(xr, []), x) == 0
    ensures Eval(SumOfVanishing(xr, randoms + [random]), x) ==
            Add(Eval(SumOfVanishing(xr, randoms), x), Eval(VanishingAt(xr, random), x))
  {
    hide Mul, Eval, PolyAdd, VanishingAt;
    EvalConstant(0, x);
    assert (randoms + [random])[..|randoms|] == randoms;
    EvalAdd(SumOfVanishing(xr, randoms), VanishingAt(xr, random), x);
  }

  lemma {:induction false} SumOfVanishingAt(xr: F, randoms: seq<Poly>, t: nat)
    requires forall k :: 0 <= k < |randoms| ==> 1 <= |randoms[k]| <= t
    ensures Eval(SumOfVanishing(xr, randoms), xr) == 0
    ensures |SumOfVanishing(xr, randoms)| <= t
  {
    hide Mul, Eval, PolyAdd, VanishingAt;
    if randoms == [] {
      EvalConstant(0, xr);
    } else {
      var init, last := randoms[..|randoms| - 1], randoms[|randoms| - 1];
      SumOfVanishingAt(xr, init, t);
      VanishingAtCorrect(xr, last);
      EvalAdd(SumOfVanishing(xr, init), VanishingAt(xr, last), xr);
      AddZero(0);
    }
  }

  /** What participant i is sent adds up to the value of the sum polynomial at x_i. */
  lemma {:induction false} UpdatesAddUp(xs: seq<F>, h: G2, xr: F, randoms: seq<Poly>, i: nat)
    requires forall k :: 0 <= k < |randoms| ==> randoms[k] != []
    requires i < |xs|
    ensures Sum(UpdatesFor(DealUpdates(xs, h, xr, randoms), i)) == Mul(h, Eval(SumOfVanishing(xr, randoms), xs[i]))
  {
    hide Mul, Eval, PolyAdd, VanishingAt, Add;
    if randoms == [] {
      EvalConstant(0, xs[i]);
      MulZeroOne(h);
    } else {
      var n := |randoms| - 1;
      var init, last := randoms[..n], randoms[n];
      UpdatesAddUp(xs, h, xr, init, i);
      assert UpdatesFor(DealUpdates(xs, h, xr, randoms), i)[..n] == UpdatesFor(DealUpdates(xs, h, xr, init), i);
      EvalAdd(SumOfVanishing(xr, init), VanishingAt(xr, last), xs[i]);
      MulAdd(h, Eval(SumOfVanishing(xr, init), xs[i]), Eval(VanishingAt(xr, last), xs[i]));
    }
  }

  lemma UpdateShareIsSum(share: G2, updates: seq<G2>)
    ensures UpdateShare(share, updates) == Add(share, Sum(updates))
  {
    hide Add;
    SumConcat([share], updates);
    SumOne(share);
  }

  /** A participant's updated share lies on f plus the sum polynomial, in whatever
      order the updates were received. */
  lemma UpdatedShareOnSum(f: Poly, xs: seq<F>, h: G2, xr: F, randoms: seq<Poly>, i: nat, received: seq<G2>)
    requires forall k :: 0 <= k < |randoms| ==> randoms[k] != []
    requires i < |xs|
    requires multiset(received) == multiset(UpdatesFor(DealUpdates(xs, h, xr, randoms), i))
    ensures UpdateShare(Mul(h, Eval(f, xs[i])), received) ==
            Mul(h, Eval(PolyAdd(f, SumOfVanishing(xr, randoms)), xs[i]))
  {
    hide Mul, Eval, PolyAdd, Add, Sum, SumOfVanishing;
    UpdateShareIsSum(Mul(h, Eval(f, xs[i])), received);
    SumPermutation(received, UpdatesFor(DealUpdates(xs, h, xr, randoms), i));
    UpdatesAddUp(xs, h, xr, randoms, i);
    EvalAdd(f, SumOfVanishing(xr, randoms), xs[i]);
    MulAdd(h, Eval(f, xs[i]), Eval(SumOfVanishing(xr, randoms), xs[i]));
  }

  /** Recovery: from the updated shares of at least t distinct points, for any dealers
      and any order of receipt, interpolation at xr gives exactly the share f(xr). */
  lemma RecoveryIsExact(f: Poly, t: nat, xs: seq<F>, h: G2, xr: F, randoms: seq<Poly>, updated: seq<G2>,
                        received: seq<seq<G2>>)
    requires |Trim(f)| <= t <= |xs| && Distinct(xs)
    requires forall k :: 0 <= k < |randoms| ==> 1 <= |randoms[k]| <= t
    requires |updated| == |received| == |xs|
    requires forall i :: 0 <= i < |xs| ==>
               && multiset(received[i]) == multiset(UpdatesFor(DealUpdates(xs, h, xr, randoms), i))
               && updated[i] == UpdateShare(Mul(h, Eval(f, xs[i])), received[i])
    ensures RecoverShare(xr, xs, updated) == Mul(h, Eval(f, xr))
  {
    hide Mul, Eval, PolyAdd, Add, Sum, Basis, SumOfVanishing, Trim, DealUpdates, UpdateShare, Distinct;
    var g := PolyAdd(Trim(f), SumOfVanishing(xr, randoms));
    SumOfVanishingAt(xr, randoms, t);
    forall i | 0 <= i < |xs| ensures updated[i] == Mul(h, Eval(g, xs[i])) {
      EvalTrim(f, xs[i]);
      UpdatedShareOnSum(Trim(f), xs, h, xr, randoms, i, received[i]);
    }
    assert updated == ScaleAll(h, Values(g, xs));
    InterpolateShares(g, xs, h, xr);
    EvalAdd(Trim(f), SumOfVanishing(xr, randoms), xr);
    EvalTrim(f, xr);
    AddZero(Eval(f, xr));
  }

  lemma InterpolateShares(g: Poly, xs: seq<F>, h: G2, x: F)
    requires Distinct(xs) && Canonical(g) && |g| <= |xs|
    ensures RecoverShare(x, xs, ScaleAll(h, Values(g, xs))) == Mul(h, Eval(g, x))
  {
    hide Mul, Eval, Basis, Sum, Distinct;
    TrimCanonical(g);
    DotComm(ScaleAll(h, Values(g, xs)), Basis(xs, x));
    DotScale(h, Basis(xs, x), Values(g, xs));
    BasisReproduces(xs, x, g);
  }
}
