/** Linear combinations sum_i c_i prod_(j != i) (x - u_j), Lagrange interpolation
    through them, and the derivative of a product of linear factors. */
module Combinations {
  import opened Sequences
  import opened Field
  import opened Polynomials
  import opened RootProducts
  import opened Derivative

  /** The first k terms of sum_i c_i prod_(j != i) (x - u_j), added one by one. */
  function CombinationUpTo(u: seq<F>, c: seq<F>, k: nat): Poly
    requires |u| == |c| && k <= |u|
  {
    if k == 0 then [] else
      PolyAdd(CombinationUpTo(u, c, k - 1), Scale(c[k - 1], ProductPoly(Others(u, k - 1))))
  }

  function Combination(u: seq<F>, c: seq<F>): Poly
    requires |u| == |c|
  {
    CombinationUpTo(u, c, |u|)
  }

  /** Taking out the first point. */
  lemma {:induction false} CombinationUpToCons(u: seq<F>, c: seq<F>, k: nat)
    requires |u| == |c| && 1 <= k <= |u|
    ensures CombinationUpTo(u, c, k) ==
            PolyAdd(Scale(c[0], ProductPoly(u[1..])), PolyMul(Linear(u[0]), CombinationUpTo(u[1..], c[1..], k - 1)))
  {
    hide Mul, PolyMul, Linear, PolyAdd, Scale, ProductPoly;
    var l, first := Linear(u[0]), Scale(c[0], ProductPoly(u[1..]));
    if k == 1 {
      OthersTail(u, 0);
      assert PolyMul(l, []) == [];
      PolyAddZero(first);
    } else {
      var t, d := u[1..], c[1..];
      var before, last := CombinationUpTo(t, d, k - 2), ProductPoly(Others(t, k - 2));
      CombinationUpToCons(u, c, k - 1);
      OthersTail(u, k - 1);
      ProductCons(u[0], Others(t, k - 2));
      MulScale(l, d[k - 2], last);
      PolyMulAdd(l, before, Scale(d[k - 2], last));
      PolyAddAssoc(first, PolyMul(l, before), PolyMul(l, Scale(d[k - 2], last)));
    }
  }

  lemma ProductCons(a: F, u: seq<F>)
    ensures ProductPoly([a] + u) == PolyMul(Linear(a), ProductPoly(u))
  {
    assert ([a] + u)[1..] == u;
  }

  lemma CombinationCons(u: seq<F>, c: seq<F>)
    requires |u| == |c| && u != []
    ensures Combination(u, c) ==
            PolyAdd(Scale(c[0], ProductPoly(u[1..])), PolyMul(Linear(u[0]), Combination(u[1..], c[1..])))
  {
    hide CombinationUpTo, PolyMul, Mul, Linear, PolyAdd, Scale, ProductPoly;
    CombinationUpToCons(u, c, |u|);
  }

  lemma {:induction false} CombinationLength(u: seq<F>, c: seq<F>)
    requires |u| == |c|
    ensures Canonical(Combination(u, c)) && |Combination(u, c)| <= |u|
  {
    hide Mul, PolyMul, Scale, ProductPoly;
    if u == [] {
    } else {
      CombinationLength(u[1..], c[1..]);
      CombinationCons(u, c);
    }
  }

  /** The combination over a concatenation, from the combinations over its parts. */
  lemma {:induction false} CombinationConcat(u: seq<F>, c: seq<F>, v: seq<F>, d: seq<F>)
    requires |u| == |c| && |v| == |d|
    ensures Combination(u + v, c + d) ==
            PolyAdd(PolyMul(ProductPoly(v), Combination(u, c)), PolyMul(ProductPoly(u), Combination(v, d)))
  {
    hide Mul, PolyMul, Linear, PolyAdd, Scale, Combination;
    if u == [] {
      assert u + v == v && c + d == d;
      CombinationEmpty(u, c);
      CombinationLength(v, d);
      MulOne(Combination(v, d));
      TrimCanonical(Combination(v, d));
      assert PolyMul(ProductPoly(v), []) == [];
      PolyAddZero(Combination(v, d));
    } else {
      var t, e, w, b := u[1..], c[1..], u + v, c + d;
      CombinationConcat(t, e, v, d);
      CombinationCons(u, c);
      CombinationCons(w, b);
      assert w[1..] == t + v && b[1..] == e + d;
      ProductConcat(t, v);
      ConcatStep(Linear(u[0]), c[0], ProductPoly(t), ProductPoly(v), Combination(t, e), Combination(v, d));
    }
  }

  lemma CombinationEmpty(u: seq<F>, c: seq<F>)
    requires |u| == |c| == 0
    ensures Combination(u, c) == []
  {
  }

  /** c p q + l (q a + p b) = q (c p + l a) + (l p) b */
  lemma ConcatStep(l: Poly, c: F, p: Poly, q: Poly, a: Poly, b: Poly)
    ensures PolyAdd(Scale(c, PolyMul(p, q)), PolyMul(l, PolyAdd(PolyMul(q, a), PolyMul(p, b))))
         == PolyAdd(PolyMul(q, PolyAdd(Scale(c, p), PolyMul(l, a))), PolyMul(PolyMul(l, p), b))
  {
    hide *;
    PolyMulComm(p, q);
    MulScale(q, c, p);
    PolyMulAdd(l, PolyMul(q, a), PolyMul(p, b));
    MulSwapLeft(l, q, a);
    PolyMulAssoc(l, p, b);
    PolyMulAdd(q, Scale(c, p), PolyMul(l, a));
    PolyAddAssoc(Scale(c, PolyMul(p, q)), PolyMul(q, PolyMul(l, a)), PolyMul(PolyMul(l, p), b));
  }

  /** At the point u_k only the k-th term survives. */
  lemma {:induction false} CombinationAt(u: seq<F>, c: seq<F>, k: nat)
    requires |u| == |c| && k < |u|
    ensures Eval(Combination(u, c), u[k]) == Mul(c[k], Weight(u, k))
  {
    hide Mul, PolyMul, Linear, PolyAdd, Scale, Combination, ProductPoly, Eval, Add, Sub, DiffProduct;
    var t, e, x := u[1..], c[1..], u[k];
    CombinationCons(u, c);
    EvalAdd(Scale(c[0], ProductPoly(t)), PolyMul(Linear(u[0]), Combination(t, e)), x);
    EvalScale(c[0], ProductPoly(t), x);
    EvalProduct(t, x);
    EvalMul(Linear(u[0]), Combination(t, e), x);
    EvalLinear(u[0], x);
    OthersTail(u, k);
    if k == 0 {
      SubZero(x, u[0]);
      MulZeroOne(Eval(Combination(t, e), x));
      AddZero(Mul(c[0], DiffProduct(t, x)));
    } else {
      CombinationAt(t, e, k - 1);
      DiffProductZero(t, x);
      assert x == t[k - 1];
      MulZeroOne(c[0]);
      DiffProductCons(u[0], Others(t, k - 1), x);
      MulLeft(Sub(x, u[0]), c[k], Weight(t, k - 1));
      AddZero(Mul(c[k], Weight(u, k)));
    }
  }

  lemma DiffProductCons(a: F, u: seq<F>, x: F)
    ensures DiffProduct([a] + u, x) == Mul(Sub(x, a), DiffProduct(u, x))
  {
    hide Mul, Sub;
    assert ([a] + u)[1..] == u;
  }

  // ----- the derivative of a product of linear factors -----

  function Ones(n: nat): (r: seq<F>)
    ensures |r| == n
  {
    seq(n, _ => 1)
  }

  /** (prod_i (x - u_i))' = sum_i prod_(j != i) (x - u_j) */
  lemma {:induction false} DerivativeOfProduct(u: seq<F>)
    ensures Deriv(ProductPoly(u)) == Combination(u, Ones(|u|))
  {
    hide Mul, PolyMul, PolyAdd, Scale, Combination, Deriv;
    if u == [] {
      DerivConstant(1);
      CombinationEmpty(u, Ones(0));
    } else {
      var t, l := u[1..], Linear(u[0]);
      DerivativeOfProduct(t);
      ProductRule(l, ProductPoly(t));
      DerivLinear(u[0]);
      MulOne(ProductPoly(t));
      ScaleZeroOne(ProductPoly(t));
      CombinationCons(u, Ones(|u|));
      assert Ones(|u|)[1..] == Ones(|t|);
    }
  }

  lemma DerivLinear(a: F)
    ensures Deriv(Linear(a)) == ONE
  {
    hide Mul, FromNat;
    forall i ensures At(Deriv(Linear(a)), i) == At(ONE, i) {
      FromNatSucc(0);
      MulZeroOne(1);
      if i > 0 { MulZeroOne(FromNat(i + 1)); }
    }
    Extensional(Deriv(Linear(a)), ONE);
  }

  /** m'(u_i) = prod_(j != i) (u_i - u_j) */
  lemma DerivativeAtRoot(u: seq<F>, i: nat)
    requires i < |u|
    ensures Eval(Deriv(ProductPoly(u)), u[i]) == Weight(u, i)
  {
    hide Mul, Eval, Deriv, Combination, Weight;
    DerivativeOfProduct(u);
    CombinationAt(u, Ones(|u|), i);
    MulZeroOne(Weight(u, i));
  }

  // ----- interpolation -----

  function InterpolationCoefficients(u: seq<F>, v: seq<F>): (c: seq<F>)
    requires |u| == |v| && Distinct(u)
    ensures |c| == |u|
  {
    DistinctIffWeights(u);
    seq(|u|, i requires 0 <= i < |u| => Mul(Inv(Weight(u, i)), v[i]))
  }

  /** Lagrange's interpolation polynomial. */
  function Interpolant(u: seq<F>, v: seq<F>): (p: Poly)
    requires |u| == |v| && Distinct(u)
    ensures Canonical(p) && |p| <= |u|
  {
    CombinationLength(u, InterpolationCoefficients(u, v));
    Combination(u, InterpolationCoefficients(u, v))
  }

  lemma InterpolantAt(u: seq<F>, v: seq<F>, i: nat)
    requires |u| == |v| && Distinct(u) && i < |u|
    ensures Eval(Interpolant(u, v), u[i]) == v[i]
  {
    hide Mul, Combination, Eval, Weight;
    DistinctIffWeights(u);
    var w, c := Weight(u, i), InterpolationCoefficients(u, v);
    CombinationAt(u, c, i);
    assert c[i] == Mul(Inv(w), v[i]);
    MulComm(Mul(Inv(w), v[i]), w);
    MulAssoc(w, Inv(w), v[i]);
    MulZeroOne(v[i]);
  }

  /** It is the only polynomial of degree below n with these values. */
  lemma InterpolantUnique(u: seq<F>, v: seq<F>, p: Poly)
    requires |u| == |v| && Distinct(u)
    requires Canonical(p) && |p| <= |u| && forall i :: 0 <= i < |u| ==> Eval(p, u[i]) == v[i]
    ensures p == Interpolant(u, v)
  {
    hide Eval, Interpolant;
    forall i | 0 <= i < |u| ensures Eval(p, u[i]) == Eval(Interpolant(u, v), u[i]) { InterpolantAt(u, v, i); }
    ValuesDetermine(p, Interpolant(u, v), u);
  }
}
