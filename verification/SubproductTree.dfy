/** The subproduct tree over a list of points: multipoint evaluation, linear
    combination of moduli, inverse Lagrange coefficients and interpolation. */
module SubproductTree {
  import opened Sequences
  import opened Field
  import opened Polynomials
  import opened FastDivision
  import opened RootProducts
  import opened Derivative
  import opened Combinations

  datatype Tree =
    | Leaf(m: Poly)
    | Node(m: Poly, left: Tree, right: Tree)

  /** `SubproductTree::new` */
  function NewTree(u: seq<F>): Tree
    requires u != []
  {
    if |u| == 1 then Leaf([Neg(u[0]), 1])
    else
      var n := |u| / 2;
      var left, right := NewTree(u[..n]), NewTree(u[n..]);
      Node(PolyMul(left.m, right.m), left, right)
  }

  /** Every node holds the product of (x - u_i) over exactly its slice. */
  lemma {:induction false} TreeIsProduct(u: seq<F>)
    requires u != []
    ensures NewTree(u).m == ProductPoly(u)
  {
    hide Mul, PolyMul;
    if |u| == 1 {
      assert u[1..] == [];
      MulOne(Linear(u[0]));
      TrimCanonical(Linear(u[0]));
    } else {
      var n := |u| / 2;
      TreeIsProduct(u[..n]);
      TreeIsProduct(u[n..]);
      assert u == u[..n] + u[n..];
      ProductConcat(u[..n], u[n..]);
    }
  }

  /** The two children of an inner node, with the shape of their moduli. */
  lemma TreeChildren(u: seq<F>)
    requires |u| > 1
    ensures var t, n := NewTree(u), |u| / 2;
            && t.Node? && t.left == NewTree(u[..n]) && t.right == NewTree(u[n..])
            && t.left.m == ProductPoly(u[..n]) && |t.left.m| == n + 1 && t.left.m[n] == 1
            && t.right.m == ProductPoly(u[n..]) && |t.right.m| == |u| - n + 1 && t.right.m[|u| - n] == 1
  {
    hide *;
    NodeShape(u);
    TreeIsProduct(u[..|u| / 2]);
    TreeIsProduct(u[|u| / 2..]);
  }

  lemma NodeShape(u: seq<F>)
    requires |u| > 1
    ensures var t, n := NewTree(u), |u| / 2;
            t.Node? && t.left == NewTree(u[..n]) && t.right == NewTree(u[n..])
  {
    hide PolyMul;
  }

  // ----- multipoint evaluation -----

  /** The values of f on the points u. */
  function Values(f: Poly, u: seq<F>): seq<F> {
    seq(|u|, i requires 0 <= i < |u| => Eval(f, u[i]))
  }

  /** A remainder modulo the product over u keeps the values on u. */
  lemma RemainderKeepsValues(f: Poly, r: Poly, u: seq<F>)
    requires Trim(r) == LongDivide(f, ProductPoly(u)).1
    ensures Values(r, u) == Values(f, u)
  {
    forall i | 0 <= i < |u| ensures Eval(r, u[i]) == Eval(f, u[i]) { RemainderKeepsValue(f, r, u, i); }
  }

  lemma RemainderKeepsValue(f: Poly, r: Poly, u: seq<F>, i: nat)
    requires i < |u|
    requires Trim(r) == LongDivide(f, ProductPoly(u)).1
    ensures Eval(r, u[i]) == Eval(f, u[i])
  {
    hide Mul, PolyMul, Eval, LongDivide;
    var m, x := ProductPoly(u), u[i];
    var (q, r') := LongDivide(f, m);
    LongDivideCorrect(f, m);
    EvalTrim(f, x);
    EvalTrim(r, x);
    EvalAdd(PolyMul(m, q), r', x);
    EvalMul(m, q, x);
    EvalProduct(u, x);
    DiffProductZero(u, x);
    MulZeroOne(Eval(q, x));
  }

  lemma ValuesShort(f: Poly, u: seq<F>)
    requires |u| == 1 && |Trim(f)| <= 1
    ensures Values(f, u) == [At(f, 0)]
    ensures Canonical(f) ==> (f == [] <==> 0 in Values(f, u))
  {
    var x := u[0];
    EvalTrim(f, x);
    EvalConstant(At(f, 0), x);
    assert At(Trim(f), 0) == At(f, 0);
    assert Trim(f) == [] || Trim(f) == [At(f, 0)];
  }

  lemma ValuesSplit(f: Poly, u: seq<F>, n: nat)
    requires n <= |u|
    ensures Values(f, u) == Values(f, u[..n]) + Values(f, u[n..])
  {
  }

  lemma ValuesLength(f: Poly, u: seq<F>)
    ensures |Values(f, u)| == |u|
  {
  }

  /** s with the entries from lo on overwritten by v. */
  function Splice<T>(s: seq<T>, lo: nat, v: seq<T>): (r: seq<T>)
    requires lo + |v| <= |s|
    ensures |r| == |s|
  {
    s[..lo] + v + s[lo + |v|..]
  }

  lemma SpliceTwice<T>(s: seq<T>, lo: nat, v: seq<T>, w: seq<T>)
    requires lo + |v| + |w| <= |s|
    ensures Splice(Splice(s, lo, v), lo + |v|, w) == Splice(s, lo, v + w)
  {
  }

  /** `SubproductTree::evaluate`: overwrites the |u| slots of t from lo on.  A leaf
      reads the constant coefficient of the polynomial handed down to it; `inBounds`
      tells whether each of those polynomials had a coefficient to read. */
  method Evaluate(tree: Tree, f: Poly, u: seq<F>, t: array<F>, lo: nat) returns (inBounds: bool)
    requires u != [] && tree == NewTree(u)
    requires |Trim(f)| <= |u|
    requires lo + |Values(f, u)| <= t.Length
    modifies t
    ensures t[..] == Splice(old(t[..]), lo, Values(f, u))
    ensures Canonical(f) || (|u| > 1 && |f| >= |u|) ==> (inBounds <==> 0 !in Values(f, u))
    decreases tree
  {
    hide *;
    ValuesLength(f, u);
    if |u| == 1 {
      ValuesShort(f, u);
      t[lo] := At(f, 0);
      SpliceOne(old(t[..]), lo, At(f, 0));
      return |f| > 0;
    }
    var n := |u| / 2;
    var u0, u1 := u[..n], u[n..];
    TreeChildren(u);
    var _, r0 := FastDivideMonic(f, tree.left.m);
    var _, r1 := FastDivideMonic(f, tree.right.m);
    RemainderKeepsValues(f, r0, u0);
    RemainderKeepsValues(f, r1, u1);
    ValuesSplit(f, u, n);
    ValuesLength(f, u0);
    ValuesLength(f, u1);
    var ok0 := Evaluate(tree.left, r0, u0, t, lo);
    var ok1 := Evaluate(tree.right, r1, u1, t, lo + n);
    SpliceTwice(old(t[..]), lo, Values(f, u0), Values(f, u1));
    inBounds := ok0 && ok1;
  }

  lemma SpliceOne<T>(s: seq<T>, lo: nat, x: T)
    requires lo < |s|
    ensures Splice(s, lo, [x]) == s[lo := x]
  {
  }

  // ----- linear combination of moduli -----

  /** `SubproductTree::linear_combine` */
  function LinearCombine(tree: Tree, u: seq<F>, c: seq<F>): Poly
    requires u != [] && |c| == |u| && tree == NewTree(u)
    decreases tree
  {
    if |u| == 1 then [c[0]]
    else
      var n := |u| / 2;
      PolyAdd(PolyMul(tree.right.m, LinearCombine(tree.left, u[..n], c[..n])),
              PolyMul(tree.left.m, LinearCombine(tree.right, u[n..], c[n..])))
  }

  /** The tree computes sum_i c_i m / (x - u_i). */
  lemma {:induction false} LinearCombineIsCombination(u: seq<F>, c: seq<F>)
    requires u != [] && |c| == |u|
    ensures Trim(LinearCombine(NewTree(u), u, c)) == Combination(u, c)
  {
    hide *;
    if |u| == 1 {
      LinearCombineLeaf(u, c);
      CombinationSingle(u, c);
    } else {
      var n := |u| / 2;
      var u0, u1, c0, c1 := u[..n], u[n..], c[..n], c[n..];
      var r0, r1 := LinearCombine(NewTree(u0), u0, c0), LinearCombine(NewTree(u1), u1, c1);
      LinearCombineIsCombination(u0, c0);
      LinearCombineIsCombination(u1, c1);
      LinearCombineNode(u, c);
      MulTrimRight(ProductPoly(u1), r0);
      MulTrimRight(ProductPoly(u0), r1);
      TrimCanonical(LinearCombine(NewTree(u), u, c));
      CombinationConcat(u0, c0, u1, c1);
      assert u0 + u1 == u && c0 + c1 == c;
    }
  }

  lemma LinearCombineLeaf(u: seq<F>, c: seq<F>)
    requires |u| == |c| == 1
    ensures LinearCombine(NewTree(u), u, c) == [c[0]]
  {
  }

  lemma LinearCombineNode(u: seq<F>, c: seq<F>)
    requires |u| > 1 && |c| == |u|
    ensures var n := |u| / 2;
            var u0, u1, c0, c1 := u[..n], u[n..], c[..n], c[n..];
            LinearCombine(NewTree(u), u, c) ==
            PolyAdd(PolyMul(ProductPoly(u1), LinearCombine(NewTree(u0), u0, c0)),
                    PolyMul(ProductPoly(u0), LinearCombine(NewTree(u1), u1, c1)))
  {
    hide Mul, PolyMul, PolyAdd, ProductPoly, NewTree;
    TreeChildren(u);
  }

  lemma CombinationSingle(u: seq<F>, c: seq<F>)
    requires |u| == |c| == 1
    ensures Combination(u, c) == Trim([c[0]])
  {
    hide Mul, PolyMul, Combination;
    CombinationCons(u, c);
    CombinationEmpty(u[1..], c[1..]);
    assert PolyMul(Linear(u[0]), []) == [];
    PolyAddZero(Scale(c[0], ProductPoly(u[1..])));
    TrimCanonical(Scale(c[0], ONE));
    MulConstant(ONE, c[0]);
    MulOne([c[0]]);
  }

  // ----- inverse Lagrange coefficients and interpolation -----

  /** prod_(j != i) (u_i - u_j) for every i */
  function Weights(u: seq<F>): (w: seq<F>)
    ensures |w| == |u|
  {
    seq(|u|, i requires 0 <= i < |u| => Weight(u, i))
  }

  lemma WeightsAreValues(u: seq<F>)
    requires u != []
    ensures Values(RawDerivative(ProductPoly(u)), u) == Weights(u)
    ensures |Trim(RawDerivative(ProductPoly(u)))| <= |u|
  {
    var m := ProductPoly(u);
    forall i | 0 <= i < |u| ensures Eval(RawDerivative(m), u[i]) == Weight(u, i) {
      EvalTrim(RawDerivative(m), u[i]);
      DerivativeAtRoot(u, i);
    }
  }

  lemma WeightsDistinct(u: seq<F>)
    ensures Distinct(u) <==> 0 !in Weights(u)
  {
    DistinctIffWeights(u);
    assert forall i :: 0 <= i < |u| ==> Weights(u)[i] == Weight(u, i);
  }

  /** `SubproductTree::inverse_lagrange_coefficients` */
  method InverseLagrangeCoefficients(tree: Tree, u: seq<F>) returns (w: seq<F>, inBounds: bool)
    requires u != [] && tree == NewTree(u)
    ensures w == Weights(u)
    ensures inBounds <==> Distinct(u)
  {
    hide Mul, Weights, Values, ProductPoly, RawDerivative, Splice;
    if |u| == 1 {
      WeightsSingle(u);
      return [1], true;
    }
    TreeIsProduct(u);
    var evals := new F[|u|](_ => 0);
    var mPrime := ComputeDerivative(tree.m);
    WeightsAreValues(u);
    WeightsDistinct(u);
    ValuesLength(mPrime, u);
    ghost var before := evals[..];
    inBounds := Evaluate(tree, mPrime, u, evals, 0);
    SpliceAll(before, Values(mPrime, u));
    w := evals[..];
  }

  lemma WeightsSingle(u: seq<F>)
    requires |u| == 1
    ensures Weights(u) == [1] && Distinct(u)
  {
    assert Others(u, 0) == [];
  }

  lemma SpliceAll<T>(s: seq<T>, v: seq<T>)
    requires |s| == |v|
    ensures Splice(s, 0, v) == v
  {
  }

  /** `SubproductTree::interpolate` */
  method Interpolate(tree: Tree, u: seq<F>, v: seq<F>) returns (p: Poly)
    requires u != [] && tree == NewTree(u)
    requires |v| == |u| && Distinct(u)
    ensures Trim(p) == Interpolant(u, v)
  {
    hide Mul, Weights, Combination, LinearCombine, Trim;
    var w, _ := InverseLagrangeCoefficients(tree, u);
    var lagrange := w;
    WeightsAt(u);
    DistinctIffWeights(u);
    for i := 0 to |u|
      invariant |lagrange| == |u|
      invariant forall k :: 0 <= k < i ==> lagrange[k] == InterpolationCoefficients(u, v)[k]
      invariant forall k :: i <= k < |u| ==> lagrange[k] == w[k]
    {
      lagrange := lagrange[i := Mul(Inv(lagrange[i]), v[i])];
    }
    assert lagrange == InterpolationCoefficients(u, v);
    LinearCombineIsCombination(u, lagrange);
    p := LinearCombine(tree, u, lagrange);
  }

  lemma WeightsAt(u: seq<F>)
    ensures forall i {:trigger Weights(u)[i]} :: 0 <= i < |u| ==> Weights(u)[i] == Weight(u, i)
  {
  }

  // ----- the domain: points and tree together -----

  /** `SubproductDomain`, with `prime` the derivative of the product over u. */
  datatype Domain = Domain(u: seq<F>, tree: Tree, prime: Poly) {
    ghost predicate Valid() {
      u != [] && tree == NewTree(u) && prime == RawDerivative(ProductPoly(u))
    }
  }

  /** `SubproductDomain::new` */
  method NewDomain(u: seq<F>) returns (d: Domain)
    requires u != []
    ensures d.Valid() && d.u == u
  {
    TreeIsProduct(u);
    var tree := NewTree(u);
    var prime := ComputeDerivative(tree.m);
    d := Domain(u, tree, prime);
  }

  /** `SubproductDomain::evaluate` */
  method EvaluateOver(d: Domain, f: Poly) returns (evals: seq<F>, inBounds: bool)
    requires d.Valid() && |Trim(f)| <= |d.u|
    ensures evals == Values(f, d.u)
    ensures Canonical(f) ==> (inBounds <==> 0 !in Values(f, d.u))
  {
    var slots := new F[|d.u|](_ => 0);
    ValuesLength(f, d.u);
    ghost var before := slots[..];
    inBounds := Evaluate(d.tree, f, d.u, slots, 0);
    SpliceAll(before, Values(f, d.u));
    evals := slots[..];
  }

  /** The polynomial x over the points 0 and 1: the leaf of 0 is handed a polynomial
      without coefficients, so its read is out of bounds. */
  method EvaluateLine() returns (evals: seq<F>, inBounds: bool)
    ensures evals == [0, 1] && !inBounds
  {
    hide Mul, Eval;
    var line: Poly := [0, 1];
    var d := NewDomain(line);
    LineValues();
    evals, inBounds := EvaluateOver(d, line);
    assert 0 == Values(line, line)[0];
  }

  lemma LineValues()
    ensures Values([0, 1], [0, 1]) == [0, 1] && Trim([0, 1]) == [0, 1] && Canonical([0, 1])
  {
    hide Mul;
    var line: Poly := [0, 1];
    assert line[1..] == [1];
    forall x: F ensures Eval(line, x) == x {
      EvalConstant(1, x);
      MulZeroOne(x);
      AddZero(x);
    }
    TrimCanonical(line);
  }

  /** Evaluating what was interpolated gives the values back. */
  lemma EvaluateInterpolant(u: seq<F>, v: seq<F>)
    requires |u| == |v| && Distinct(u)
    ensures Values(Interpolant(u, v), u) == v
  {
    hide Eval, Interpolant;
    forall i | 0 <= i < |u| ensures Eval(Interpolant(u, v), u[i]) == v[i] { InterpolantAt(u, v, i); }
  }

  /** Interpolating what was evaluated gives the polynomial back. */
  lemma InterpolateValues(u: seq<F>, f: Poly)
    requires Distinct(u) && |Trim(f)| <= |u|
    ensures Interpolant(u, Values(f, u)) == Trim(f)
  {
    hide Eval, Interpolant, Trim;
    forall i | 0 <= i < |u| ensures Eval(Trim(f), u[i]) == Values(f, u)[i] { EvalTrim(f, u[i]); }
    InterpolantUnique(u, Values(f, u), Trim(f));
  }
}
