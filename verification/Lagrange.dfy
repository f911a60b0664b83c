/** Lagrange coefficients at a point, and what they reproduce. */
module Lagrange {
  import opened Sequences
  import opened Field
  import opened Polynomials
  import opened RootProducts
  import opened Combinations
  import opened SubproductTree
  import opened Sums

  // ----- a linear combination of moduli, evaluated -----

  /** prod_(m != j) (x - u_m) for every j */
  function Nodes(u: seq<F>, x: F): (r: seq<F>)
    ensures |r| == |u|
  {
    seq(|u|, j requires 0 <= j < |u| => DiffProduct(Others(u, j), x))
  }

  lemma {:induction false} EvalCombinationUpTo(u: seq<F>, c: seq<F>, k: nat, x: F)
    requires |u| == |c| && k <= |u|
    ensures Eval(CombinationUpTo(u, c, k), x) == Sum(Products(c, Nodes(u, x))[..k])
  {
    hide Mul, Eval, ProductPoly, PolyAdd, Scale, DiffProduct, Add;
    var terms := Products(c, Nodes(u, x));
    if k == 0 {
      EvalConstant(0, x);
    } else {
      var rest, p := CombinationUpTo(u, c, k - 1), ProductPoly(Others(u, k - 1));
      EvalCombinationUpTo(u, c, k - 1, x);
      EvalAdd(rest, Scale(c[k - 1], p), x);
      EvalScale(c[k - 1], p, x);
      EvalProduct(Others(u, k - 1), x);
      SumUpTo(terms, k - 1);
    }
  }

  lemma EvalCombination(u: seq<F>, c: seq<F>, x: F)
    requires |u| == |c|
    ensures Eval(Combination(u, c), x) == Dot(c, Nodes(u, x))
  {
    hide Mul, Eval, CombinationUpTo, Sum;
    EvalCombinationUpTo(u, c, |u|, x);
    assert Products(c, Nodes(u, x))[..|u|] == Products(c, Nodes(u, x));
  }

  // ----- the coefficients -----

  /** The product of (x_m - x) / (x_m - x_j) over the first k points other than x_j. */
  function BasisUpTo(xs: seq<F>, x: F, j: nat, k: nat): F
    requires j < |xs| && k <= |xs|
  {
    if k == 0 then 1
    else if xs[j] == xs[k - 1] then BasisUpTo(xs, x, j, k - 1)
    else
      SubZero(xs[k - 1], xs[j]);
      Mul(BasisUpTo(xs, x, j, k - 1), Div(Sub(xs[k - 1], x), Sub(xs[k - 1], xs[j])))
  }

  function Basis(xs: seq<F>, x: F): (r: seq<F>)
    ensures |r| == |xs|
  {
    seq(|xs|, j requires 0 <= j < |xs| => BasisUpTo(xs, x, j, |xs|))
  }

  /** `lagrange_basis_at` */
  method LagrangeBasisAt(sharesX: seq<F>, xi: F) returns (lagrangeCoeffs: seq<F>)
    ensures lagrangeCoeffs == Basis(sharesX, xi)
  {
    hide Mul, Div, Sub;
    lagrangeCoeffs := [];
    for j := 0 to |sharesX|
      invariant lagrangeCoeffs == Basis(sharesX, xi)[..j]
    {
      var prod := 1;
      for m := 0 to |sharesX|
        invariant prod == BasisUpTo(sharesX, xi, j, m)
      {
        if sharesX[j] != sharesX[m] {
          SubZero(sharesX[m], sharesX[j]);
          prod := Mul(prod, Div(Sub(sharesX[m], xi), Sub(sharesX[m], sharesX[j])));
        }
      }
      lagrangeCoeffs := lagrangeCoeffs + [prod];
    }
  }

  /** `prepare_combine_simple`: the coefficients at zero. */
  method PrepareCombineSimple(domain: seq<F>) returns (lagrangeCoeffs: seq<F>)
    ensures lagrangeCoeffs == Basis(domain, 0)
  {
    lagrangeCoeffs := LagrangeBasisAt(domain, 0);
  }

  // ----- the coefficients as ratios of node products -----

  lemma {:induction false} DiffProductSnoc(u: seq<F>, a: F, x: F)
    ensures DiffProduct(u + [a], x) == Mul(DiffProduct(u, x), Sub(x, a))
  {
    hide Mul, Sub;
    if u == [] {
      assert u + [a] == [a] && [a][1..] == [];
      MulComm(1, Sub(x, a));
    } else {
      assert (u + [a])[1..] == u[1..] + [a];
      DiffProductSnoc(u[1..], a, x);
      MulAssoc(Sub(x, u[0]), DiffProduct(u[1..], x), Sub(x, a));
    }
  }

  /** a / b does not change when both change sign. */
  lemma RatioSign(a: F, b: F, c: F)
    requires a != b
    ensures Sub(a, b) != 0 && Sub(b, a) != 0
    ensures Div(Sub(a, c), Sub(a, b)) == Div(Sub(c, a), Sub(b, a))
  {
    hide Mul;
    var d, e := Sub(a, b), Sub(a, c);
    assert Sub(b, a) == Neg(d) && Sub(c, a) == Neg(e);
    MulNeg(Neg(d), Inv(d));
    MulComm(Neg(d), Inv(d));
    MulNeg(Inv(d), d);
    MulComm(Inv(d), d);
    InvUnique(Neg(d), Neg(Inv(d)));
    MulNeg(Neg(e), Inv(d));
    MulComm(Neg(e), Inv(d));
    MulNeg(Inv(d), e);
    MulComm(Inv(d), e);
  }

  /** The points among the first k that differ from a. */
  function DifferentFrom(xs: seq<F>, a: F, k: nat): (r: seq<F>)
    requires k <= |xs|
    ensures a !in r
  {
    if k == 0 then [] else DifferentFrom(xs, a, k - 1) + if xs[k - 1] == a then [] else [xs[k - 1]]
  }

  lemma {:induction false} BasisUpToIsRatio(xs: seq<F>, x: F, j: nat, k: nat)
    requires j < |xs| && k <= |xs|
    ensures var o := DifferentFrom(xs, xs[j], k);
            DiffProduct(o, xs[j]) != 0 &&
            BasisUpTo(xs, x, j, k) == Mul(DiffProduct(o, x), Inv(DiffProduct(o, xs[j])))
  {
    hide Mul, Sub, Div, DiffProduct;
    if k == 0 {
      EmptyProduct(x);
      EmptyProduct(xs[j]);
    } else {
      var o, a := DifferentFrom(xs, xs[j], k - 1), xs[k - 1];
      BasisUpToIsRatio(xs, x, j, k - 1);
      if a != xs[j] {
        AppendRatio(o, a, xs[j], x);
      } else {
        assert o + [] == o;
      }
    }
  }

  /** One more point: the ratio of node products gains the factor (a - x) / (a - y). */
  lemma AppendRatio(o: seq<F>, a: F, y: F, x: F)
    requires a != y && DiffProduct(o, y) != 0
    ensures DiffProduct(o + [a], y) != 0 && Sub(a, y) != 0
    ensures Mul(Mul(DiffProduct(o, x), Inv(DiffProduct(o, y))), Div(Sub(a, x), Sub(a, y)))
         == Mul(DiffProduct(o + [a], x), Inv(DiffProduct(o + [a], y)))
  {
    hide *;
    DiffProductSnoc(o, a, x);
    DiffProductSnoc(o, a, y);
    RatioSign(a, y, x);
    InvMul(DiffProduct(o, y), Sub(y, a));
    RatioStep(DiffProduct(o, x), DiffProduct(o, y), Sub(x, a), Sub(y, a));
  }

  lemma EmptyProduct(x: F)
    ensures DiffProduct([], x) == 1 && Inv(1) == 1 && Mul(1, Inv(1)) == 1
  {
    MulZeroOne(1);
    InvUnique(1, 1);
  }

  /** (n / w) (s / r) = (n s) / (w r) */
  lemma RatioStep(n: F, w: F, s: F, r: F)
    requires w != 0 && r != 0 && Mul(w, r) != 0
    ensures Mul(Mul(n, Inv(w)), Div(s, r)) == Mul(Mul(n, s), Inv(Mul(w, r)))
  {
    hide Mul;
    InvMul(w, r);
    MulSwap(n, Inv(w), s, Inv(r));
  }

  /** For any points, repeated or not: the coefficient of x_j is the ratio of the
      products over the points that differ from x_j. */
  lemma BasisOfRepeatedPoints(xs: seq<F>, x: F, j: nat)
    requires j < |xs|
    ensures var o := DifferentFrom(xs, xs[j], |xs|);
            && DiffProduct(o, xs[j]) != 0
            && Mul(Basis(xs, x)[j], DiffProduct(o, xs[j])) == DiffProduct(o, x)
  {
    hide Mul, DiffProduct, BasisUpTo, DifferentFrom;
    BasisUpToIsRatio(xs, x, j, |xs|);
    var o := DifferentFrom(xs, xs[j], |xs|);
    DivMul(DiffProduct(o, x), DiffProduct(o, xs[j]));
  }

  lemma {:induction false} DifferentIsOthers(xs: seq<F>, j: nat, k: nat)
    requires Distinct(xs) && j < |xs| && k <= |xs|
    ensures DifferentFrom(xs, xs[j], k) == if k <= j then xs[..k] else xs[..j] + xs[j + 1..k]
  {
    if k > 0 {
      DifferentIsOthers(xs, j, k - 1);
    }
  }

  lemma BasisIsRatio(xs: seq<F>, x: F, j: nat)
    requires Distinct(xs) && j < |xs|
    ensures Weight(xs, j) != 0
    ensures Basis(xs, x)[j] == Mul(Nodes(xs, x)[j], Inv(Weight(xs, j)))
  {
    hide Mul, DiffProduct, BasisUpTo, DifferentFrom;
    BasisUpToIsRatio(xs, x, j, |xs|);
    DifferentIsOthers(xs, j, |xs|);
    assert DifferentFrom(xs, xs[j], |xs|) == Others(xs, j);
  }

  // ----- reproduction -----

  /** The coefficients reproduce, at any point, every polynomial of degree below the
      number of points from its values on the points. */
  lemma BasisReproduces(xs: seq<F>, x: F, f: Poly)
    requires Distinct(xs) && |Trim(f)| <= |xs|
    ensures Dot(Basis(xs, x), Values(f, xs)) == Eval(f, x)
  {
    hide Mul, Eval, Basis, Nodes, Weight, Interpolant, Sum, Trim;
    var v := Values(f, xs);
    var c := InterpolationCoefficients(xs, v);
    InterpolateValues(xs, f);
    InterpolantIsCombination(xs, v);
    EvalCombination(xs, c, x);
    EvalTrim(f, x);
    DistinctIffWeights(xs);
    forall j | 0 <= j < |xs| ensures Mul(Basis(xs, x)[j], v[j]) == Mul(c[j], Nodes(xs, x)[j]) {
      BasisIsRatio(xs, x, j);
      var n, i := Nodes(xs, x)[j], Inv(Weight(xs, j));
      assert c[j] == Mul(i, v[j]);
      MulAssoc(n, i, v[j]);
      MulComm(n, Mul(i, v[j]));
    }
    assert Products(Basis(xs, x), v) == Products(c, Nodes(xs, x));
  }

  lemma InterpolantIsCombination(u: seq<F>, v: seq<F>)
    requires |u| == |v| && Distinct(u)
    ensures Interpolant(u, v) == Combination(u, InterpolationCoefficients(u, v))
  {
    hide Combination, InterpolationCoefficients;
  }

  /** On a point of the list the coefficients collapse to a Kronecker delta. */
  lemma BasisAtOwnPoint(xs: seq<F>, k: nat, j: nat)
    requires Distinct(xs) && k < |xs| && j < |xs|
    ensures Basis(xs, xs[k])[j] == if j == k then 1 else 0
  {
    hide Mul, DiffProduct, Basis;
    BasisIsRatio(xs, xs[k], j);
    var o := Others(xs, j);
    if j != k {
      DiffProductZero(o, xs[k]);
      assert o[if k < j then k else k - 1] == xs[k];
      MulZeroOne(Inv(Weight(xs, j)));
    }
  }
}
