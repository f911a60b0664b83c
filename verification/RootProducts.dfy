/** Products of linear factors over a list of points, and what their roots determine. */
module RootProducts {
  import opened Sequences
  import opened Field
  import opened Polynomials
  import opened FastDivision

  /** x - a */
  function Linear(a: F): Poly { [Neg(a), 1] }

  lemma EvalLinear(a: F, x: F)
    ensures Eval(Linear(a), x) == Sub(x, a)
  {
    hide Mul;
    assert Linear(a)[1..] == [1];
    EvalConstant(1, x);
    MulZeroOne(x);
  }

  /** (x - u_0) ... (x - u_(n-1)) */
  function ProductPoly(u: seq<F>): (r: Poly)
    ensures Canonical(r) && |r| == |u| + 1 && r[|u|] == 1
  {
    if u == [] then ONE else
      var t := ProductPoly(u[1..]);
      MonicTimes(u[0], t);
      PolyMul(Linear(u[0]), t)
  }

  lemma MonicTimes(a: F, t: Poly)
    requires t != [] && t[|t| - 1] == 1
    ensures var r := PolyMul(Linear(a), t); |r| == |t| + 1 && r[|t|] == 1
  {
    hide Mul, PolyMul;
    LeadingTerm(Linear(a), t);
    MulZeroOne(1);
    ProductLength(Linear(a), t);
  }

  lemma {:induction false} ProductConcat(u: seq<F>, v: seq<F>)
    ensures ProductPoly(u + v) == PolyMul(ProductPoly(u), ProductPoly(v))
  {
    hide Mul, PolyMul, Linear;
    if u == [] {
      assert u + v == v;
      MulOne(ProductPoly(v));
      TrimCanonical(ProductPoly(v));
    } else {
      assert (u + v)[1..] == u[1..] + v;
      ProductConcat(u[1..], v);
      PolyMulAssoc(Linear(u[0]), ProductPoly(u[1..]), ProductPoly(v));
    }
  }

  /** (x - u_0) ... (x - u_(n-1)) as a field element */
  function DiffProduct(u: seq<F>, x: F): F
  {
    if u == [] then 1 else Mul(Sub(x, u[0]), DiffProduct(u[1..], x))
  }

  lemma {:induction false} EvalProduct(u: seq<F>, x: F)
    ensures Eval(ProductPoly(u), x) == DiffProduct(u, x)
  {
    hide Mul, PolyMul, Linear, Eval;
    if u == [] {
      EvalConstant(1, x);
    } else {
      EvalProduct(u[1..], x);
      EvalMul(Linear(u[0]), ProductPoly(u[1..]), x);
      EvalLinear(u[0], x);
    }
  }

  /** A product of differences vanishes exactly on its points. */
  lemma {:induction false} DiffProductZero(u: seq<F>, x: F)
    ensures DiffProduct(u, x) == 0 <==> x in u
  {
    hide Mul, Sub;
    if u == [] {
    } else {
      DiffProductZero(u[1..], x);
      SubZero(x, u[0]);
      MulNonZero(Sub(x, u[0]), DiffProduct(u[1..], x));
      assert u == [u[0]] + u[1..];
    }
  }

  /** The list without its i-th entry. */
  function Others<T>(u: seq<T>, i: nat): (r: seq<T>)
    requires i < |u|
    ensures |r| == |u| - 1
  {
    u[..i] + u[i + 1..]
  }

  lemma OthersTail<T>(u: seq<T>, i: nat)
    requires i < |u|
    ensures i == 0 ==> Others(u, i) == u[1..]
    ensures i > 0 ==> Others(u, i) == [u[0]] + Others(u[1..], i - 1)
  {
  }

  /** prod_(j != i) (u_i - u_j) */
  function Weight(u: seq<F>, i: nat): F
    requires i < |u|
  {
    DiffProduct(Others(u, i), u[i])
  }

  lemma WeightNonZero(u: seq<F>, i: nat)
    requires i < |u|
    ensures Weight(u, i) == 0 <==> exists j :: 0 <= j < |u| && j != i && u[j] == u[i]
  {
    DiffProductZero(Others(u, i), u[i]);
    var o := Others(u, i);
    if u[i] in o {
      var k :| 0 <= k < |o| && o[k] == u[i];
      assert u[if k < i then k else k + 1] == u[i];
    }
    if j :| 0 <= j < |u| && j != i && u[j] == u[i] {
      assert o[if j < i then j else j - 1] == u[i];
    }
  }

  /** All weights are non-zero exactly when the points are distinct. */
  lemma DistinctIffWeights(u: seq<F>)
    ensures Distinct(u) <==> forall i :: 0 <= i < |u| ==> Weight(u, i) != 0
  {
    forall i | 0 <= i < |u|
      ensures Weight(u, i) == 0 <==> exists j :: 0 <= j < |u| && j != i && u[j] == u[i]
    {
      WeightNonZero(u, i);
    }
  }

  // ----- roots determine a polynomial -----

  /** Splitting off a root. */
  lemma FactorRoot(f: Poly, a: F) returns (q: Poly)
    requires Canonical(f) && Eval(f, a) == 0
    ensures Canonical(q) && f == PolyMul(Linear(a), q)
    ensures if f == [] then q == [] else |f| == |q| + 1
  {
    hide Mul, PolyMul, PolyAdd, Eval, Trim, LongDivide;
    var qr := LongDivide(f, Linear(a));
    q := qr.0;
    var r := qr.1;
    LongDivideCorrect(f, Linear(a));
    TrimCanonical(f);
    EvalAdd(PolyMul(Linear(a), q), r, a);
    EvalMul(Linear(a), q, a);
    EvalLinear(a, a);
    SubZero(a, a);
    MulZeroOne(Eval(q, a));
    ShortVanishes(r, a);
    PolyAddZero(PolyMul(Linear(a), q));
    TrimCanonical(PolyMul(Linear(a), q));
    if q != [] { ProductLength(Linear(a), q); }
  }

  lemma ShortVanishes(r: Poly, a: F)
    requires Canonical(r) && |r| <= 1 && Eval(r, a) == 0
    ensures r == []
  {
    EvalConstant(At(r, 0), a);
    assert r == [] || r == [At(r, 0)];
  }

  /** A polynomial of degree below n with n distinct roots is zero. */
  lemma {:induction false} RootBound(f: Poly, u: seq<F>)
    requires Canonical(f) && Distinct(u) && |f| <= |u|
    requires forall i :: 0 <= i < |u| ==> Eval(f, u[i]) == 0
    ensures f == []
    decreases |u|
  {
    hide Mul, PolyMul, Eval, Linear;
    if u == [] {
    } else {
      var q := FactorRoot(f, u[0]);
      var t := u[1..];
      DistinctTail(u);
      forall i | 0 <= i < |t| ensures Eval(q, t[i]) == 0 {
        assert t[i] == u[i + 1] != u[0];
        EvalMul(Linear(u[0]), q, t[i]);
        EvalLinear(u[0], t[i]);
        SubZero(t[i], u[0]);
        MulNonZero(Sub(t[i], u[0]), Eval(q, t[i]));
      }
      RootBound(q, t);
      assert PolyMul(Linear(u[0]), []) == [];
    }
  }

  /** n values on distinct points determine a polynomial of degree below n. */
  lemma ValuesDetermine(f: Poly, g: Poly, u: seq<F>)
    requires Canonical(f) && Canonical(g) && Distinct(u) && |f| <= |u| && |g| <= |u|
    requires forall i :: 0 <= i < |u| ==> Eval(f, u[i]) == Eval(g, u[i])
    ensures f == g
  {
    hide Mul, PolyMul, Eval, PolySub;
    forall i | 0 <= i < |u| ensures Eval(PolySub(f, g), u[i]) == 0 {
      EvalSub(f, g, u[i]);
      SubZero(Eval(f, u[i]), Eval(g, u[i]));
    }
    RootBound(PolySub(f, g), u);
    DifferenceZero(f, g);
  }
}
