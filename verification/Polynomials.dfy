/** Dense univariate polynomials over F: a coefficient vector, lowest power first.
    The operators return canonical vectors (no trailing zero); vectors written by
    hand in the source (resized, reversed) need not be canonical. */
module Polynomials {
  import opened Field

  type Poly = seq<F>

  /** The coefficient of x^i; zero outside the vector. */
  function At(f: Poly, i: int): F { if 0 <= i < |f| then f[i] else 0 }

  ghost predicate Canonical(f: Poly) { |f| > 0 ==> f[|f| - 1] != 0 }

  /** The length of the first n coefficients without their trailing zeros. */
  function TrimmedLength(f: Poly, n: nat): (l: nat)
    requires n <= |f|
    ensures l <= n && (l > 0 ==> f[l - 1] != 0)
    ensures forall i :: l <= i < n ==> f[i] == 0
  {
    if n > 0 && f[n - 1] == 0 then TrimmedLength(f, n - 1) else n
  }

  /** Drops the trailing zeros. */
  function Trim(f: Poly): (r: Poly)
    ensures Canonical(r) && |r| <= |f|
    ensures forall i {:trigger At(r, i)} :: At(r, i) == At(f, i)
  {
    f[..TrimmedLength(f, |f|)]
  }

  lemma Extensional(f: Poly, g: Poly)
    requires Canonical(f) && Canonical(g)
    requires forall i :: At(f, i) == At(g, i)
    ensures f == g
  {
    assert At(f, |g| - 1) == At(g, |g| - 1);
    assert At(f, |f| - 1) == At(g, |f| - 1);
    forall i | 0 <= i < |f| ensures f[i] == g[i] { assert At(f, i) == At(g, i); }
  }

  lemma TrimCanonical(f: Poly)
    requires Canonical(f)
    ensures Trim(f) == f
  {
  }

  /** The length of a canonical vector is bounded by any point past which it is zero. */
  lemma LengthBound(f: Poly, n: nat)
    requires Canonical(f)
    requires forall i :: i >= n ==> At(f, i) == 0
    ensures |f| <= n
  {
    assert |f| > n ==> At(f, |f| - 1) == 0;
  }

  // ----- the operators -----

  function Max(a: nat, b: nat): nat { if a < b then b else a }

  function PolyAdd(f: Poly, g: Poly): (r: Poly)
    ensures Canonical(r) && |r| <= Max(|f|, |g|)
    ensures forall i {:trigger At(r, i)} :: At(r, i) == Add(At(f, i), At(g, i))
  {
    Trim(seq(Max(|f|, |g|), i => Add(At(f, i), At(g, i))))
  }

  function PolySub(f: Poly, g: Poly): (r: Poly)
    ensures Canonical(r) && |r| <= Max(|f|, |g|)
    ensures forall i {:trigger At(r, i)} :: At(r, i) == Sub(At(f, i), At(g, i))
  {
    Trim(seq(Max(|f|, |g|), i => Sub(At(f, i), At(g, i))))
  }

  function Scale(c: F, f: Poly): (r: Poly)
    ensures Canonical(r) && |r| <= |f|
    ensures forall i {:trigger At(r, i)} :: At(r, i) == Mul(c, At(f, i))
  {
    MulZeroOne(c);
    Trim(seq(|f|, i => Mul(c, At(f, i))))
  }

  /** Multiplication by x. */
  function Shift(f: Poly): (r: Poly)
    ensures Canonical(r) && |r| <= |f| + 1
    ensures forall i {:trigger At(r, i)} :: At(r, i) == At(f, i - 1)
  {
    Trim([0] + f)
  }

  function PolyMul(f: Poly, g: Poly): (r: Poly)
    ensures Canonical(r)
    ensures f != [] && g != [] ==> |r| <= |f| + |g| - 1
    ensures f == [] || g == [] ==> r == []
  {
    if f == [] then [] else PolyAdd(Scale(f[0], g), Shift(PolyMul(f[1..], g)))
  }

  const ONE: Poly := [1]

  // ----- addition and scaling -----

  lemma PolyAddComm(f: Poly, g: Poly)
    ensures PolyAdd(f, g) == PolyAdd(g, f)
  {
    Extensional(PolyAdd(f, g), PolyAdd(g, f));
  }

  lemma PolyAddAssoc(f: Poly, g: Poly, h: Poly)
    ensures PolyAdd(PolyAdd(f, g), h) == PolyAdd(f, PolyAdd(g, h))
  {
    hide Add, PolyAdd;
    forall i ensures At(PolyAdd(PolyAdd(f, g), h), i) == At(PolyAdd(f, PolyAdd(g, h)), i) {
      AddAssoc(At(f, i), At(g, i), At(h, i));
    }
    Extensional(PolyAdd(PolyAdd(f, g), h), PolyAdd(f, PolyAdd(g, h)));
  }

  /** (a + b) + (c + d) = (a + c) + (b + d) */
  lemma PolyAddSwap(a: Poly, b: Poly, c: Poly, d: Poly)
    ensures PolyAdd(PolyAdd(a, b), PolyAdd(c, d)) == PolyAdd(PolyAdd(a, c), PolyAdd(b, d))
  {
    hide Add;
    PolyAddAssoc(a, b, PolyAdd(c, d));
    PolyAddAssoc(b, c, d);
    PolyAddComm(b, c);
    PolyAddAssoc(c, b, d);
    PolyAddAssoc(a, c, PolyAdd(b, d));
  }

  lemma PolyAddZero(f: Poly)
    ensures PolyAdd(f, []) == Trim(f) == PolyAdd([], f)
    ensures PolySub(f, []) == Trim(f)
    ensures PolySub(f, f) == []
  {
    Extensional(PolyAdd(f, []), Trim(f));
    Extensional(PolyAdd([], f), Trim(f));
    Extensional(PolySub(f, []), Trim(f));
    Extensional(PolySub(f, f), []);
  }

  /** f - g = h and f = g + h say the same. */
  lemma PolySubAdd(f: Poly, g: Poly)
    ensures PolyAdd(g, PolySub(f, g)) == Trim(f)
    ensures PolySub(PolyAdd(f, g), g) == Trim(f)
  {
    Extensional(PolyAdd(g, PolySub(f, g)), Trim(f));
    Extensional(PolySub(PolyAdd(f, g), g), Trim(f));
  }

  lemma ScaleAdd(c: F, f: Poly, g: Poly)
    ensures Scale(c, PolyAdd(f, g)) == PolyAdd(Scale(c, f), Scale(c, g))
  {
    hide Mul;
    forall i ensures At(Scale(c, PolyAdd(f, g)), i) == At(PolyAdd(Scale(c, f), Scale(c, g)), i) {
      MulAdd(c, At(f, i), At(g, i));
    }
    Extensional(Scale(c, PolyAdd(f, g)), PolyAdd(Scale(c, f), Scale(c, g)));
  }

  lemma ScaleScale(b: F, c: F, f: Poly)
    ensures Scale(b, Scale(c, f)) == Scale(Mul(b, c), f)
  {
    hide Mul;
    forall i ensures At(Scale(b, Scale(c, f)), i) == At(Scale(Mul(b, c), f), i) {
      MulAssoc(b, c, At(f, i));
    }
    Extensional(Scale(b, Scale(c, f)), Scale(Mul(b, c), f));
  }

  lemma ScaleZeroOne(f: Poly)
    ensures Scale(0, f) == [] && Scale(1, f) == Trim(f)
  {
    forall i ensures At(Scale(0, f), i) == 0 && At(Scale(1, f), i) == At(f, i) { MulZeroOne(At(f, i)); }
    Extensional(Scale(0, f), []);
    Extensional(Scale(1, f), Trim(f));
  }

  lemma ScaleTrim(c: F, f: Poly)
    ensures Scale(c, Trim(f)) == Scale(c, f)
  {
    hide Mul;
    Extensional(Scale(c, Trim(f)), Scale(c, f));
  }

  lemma ShiftAdd(f: Poly, g: Poly)
    ensures Shift(PolyAdd(f, g)) == PolyAdd(Shift(f), Shift(g))
  {
    Extensional(Shift(PolyAdd(f, g)), PolyAdd(Shift(f), Shift(g)));
  }

  lemma ShiftScale(c: F, f: Poly)
    ensures Shift(Scale(c, f)) == Scale(c, Shift(f))
  {
    hide Mul;
    Extensional(Shift(Scale(c, f)), Scale(c, Shift(f)));
  }

  /** f = f(0) + x f' for the tail f'. */
  lemma Decompose(f: Poly)
    requires f != []
    ensures Trim(f) == PolyAdd([f[0]], Shift(f[1..]))
  {
    forall i ensures At(f, i) == At(PolyAdd([f[0]], Shift(f[1..])), i) {
      assert At(PolyAdd([f[0]], Shift(f[1..])), i) == Add(At([f[0]], i), At(f[1..], i - 1));
    }
    Extensional(Trim(f), PolyAdd([f[0]], Shift(f[1..])));
  }

  // ----- multiplication -----

  lemma MulAt(f: Poly, g: Poly, i: int)
    requires f != []
    ensures At(PolyMul(f, g), i) == Add(Mul(f[0], At(g, i)), At(PolyMul(f[1..], g), i - 1))
  {
    hide Mul;
  }

  lemma MulAtZero(f: Poly, g: Poly)
    ensures At(PolyMul(f, g), 0) == Mul(At(f, 0), At(g, 0))
  {
    hide Mul, PolyMul;
    MulZeroOne(At(g, 0));
    if f != [] { MulAt(f, g, 0); }
  }

  lemma {:induction false} PolyMulAdd(f: Poly, g: Poly, h: Poly)
    ensures PolyMul(f, PolyAdd(g, h)) == PolyAdd(PolyMul(f, g), PolyMul(f, h))
  {
    if f == [] {
    } else {
      var t := f[1..];
      ScaleAdd(f[0], g, h);
      PolyMulAdd(t, g, h);
      ShiftAdd(PolyMul(t, g), PolyMul(t, h));
      PolyAddSwap(Scale(f[0], g), Scale(f[0], h), Shift(PolyMul(t, g)), Shift(PolyMul(t, h)));
    }
  }

  lemma {:induction false} MulScale(f: Poly, c: F, g: Poly)
    ensures PolyMul(f, Scale(c, g)) == Scale(c, PolyMul(f, g))
  {
    if f == [] {
    } else {
      var t := f[1..];
      MulScale(t, c, g);
      ScaleScale(f[0], c, g);
      ScaleScale(c, f[0], g);
      MulComm(c, f[0]);
      ShiftScale(c, PolyMul(t, g));
      ScaleAdd(c, Scale(f[0], g), Shift(PolyMul(t, g)));
    }
  }

  lemma {:induction false} MulShift(f: Poly, g: Poly)
    ensures PolyMul(f, Shift(g)) == Shift(PolyMul(f, g))
  {
    if f == [] {
    } else {
      var t := f[1..];
      MulShift(t, g);
      ShiftScale(f[0], g);
      ShiftAdd(Scale(f[0], g), Shift(PolyMul(t, g)));
    }
  }

  /** The product depends on the coefficients only, not on trailing zeros. */
  lemma {:induction false} MulTrimRight(f: Poly, g: Poly)
    ensures PolyMul(f, Trim(g)) == PolyMul(f, g)
  {
    if f == [] {
    } else {
      ScaleTrim(f[0], g);
      MulTrimRight(f[1..], g);
    }
  }

  lemma SwapConstants(a: F, c: F)
    ensures Scale(a, [c]) == Scale(c, [a])
  {
    hide Mul;
    MulComm(c, a);
    Extensional(Scale(a, [c]), Scale(c, [a]));
  }

  lemma {:induction false} MulConstant(f: Poly, c: F)
    ensures PolyMul(f, [c]) == Scale(c, f)
  {
    hide Mul, Scale, PolyAdd, Shift, Trim;
    if f == [] {
      Extensional(Scale(c, f), []);
    } else {
      var t := f[1..];
      MulConstant(t, c);
      SwapConstants(f[0], c);
      ShiftScale(c, t);
      ScaleAdd(c, [f[0]], Shift(t));
      Decompose(f);
      ScaleTrim(c, f);
    }
  }

  lemma {:induction false} PolyMulComm(f: Poly, g: Poly)
    ensures PolyMul(f, g) == PolyMul(g, f)
  {
    if f == [] {
    } else {
      var t := f[1..];
      PolyMulComm(t, g);
      MulConstant(g, f[0]);
      MulShift(g, t);
      PolyMulAdd(g, [f[0]], Shift(t));
      Decompose(f);
      MulTrimRight(g, f);
    }
  }

  lemma MulTrimLeft(f: Poly, g: Poly)
    ensures PolyMul(Trim(f), g) == PolyMul(f, g)
  {
    PolyMulComm(Trim(f), g);
    MulTrimRight(g, f);
    PolyMulComm(f, g);
  }

  lemma AddMul(f: Poly, g: Poly, h: Poly)
    ensures PolyMul(PolyAdd(f, g), h) == PolyAdd(PolyMul(f, h), PolyMul(g, h))
  {
    PolyMulComm(PolyAdd(f, g), h);
    PolyMulAdd(h, f, g);
    PolyMulComm(f, h);
    PolyMulComm(g, h);
  }

  lemma ScaleMul(c: F, f: Poly, g: Poly)
    ensures PolyMul(Scale(c, f), g) == Scale(c, PolyMul(f, g))
  {
    PolyMulComm(Scale(c, f), g);
    MulScale(g, c, f);
    PolyMulComm(f, g);
  }

  lemma ShiftMul(f: Poly, g: Poly)
    ensures PolyMul(Shift(f), g) == Shift(PolyMul(f, g))
  {
    PolyMulComm(Shift(f), g);
    MulShift(g, f);
    PolyMulComm(f, g);
  }

  lemma {:induction false} PolyMulAssoc(f: Poly, g: Poly, h: Poly)
    ensures PolyMul(PolyMul(f, g), h) == PolyMul(f, PolyMul(g, h))
  {
    if f == [] {
    } else {
      var t := f[1..];
      PolyMulAssoc(t, g, h);
      AddMul(Scale(f[0], g), Shift(PolyMul(t, g)), h);
      ScaleMul(f[0], g, h);
      ShiftMul(PolyMul(t, g), h);
    }
  }

  lemma MulOne(f: Poly)
    ensures PolyMul(f, ONE) == Trim(f) == PolyMul(ONE, f)
  {
    MulConstant(f, 1);
    ScaleZeroOne(f);
    PolyMulComm(f, ONE);
  }

  lemma MulSubLeft(f: Poly, g: Poly, h: Poly)
    ensures PolyMul(f, PolySub(g, h)) == PolySub(PolyMul(f, g), PolyMul(f, h))
  {
    PolySubAdd(g, h);
    PolyMulAdd(f, h, PolySub(g, h));
    MulTrimRight(f, g);
    PolyAddComm(PolyMul(f, h), PolyMul(f, PolySub(g, h)));
    PolySubAdd(PolyMul(f, PolySub(g, h)), PolyMul(f, h));
    TrimCanonical(PolyMul(f, PolySub(g, h)));
  }

  /** f (g h) = g (f h) */
  lemma MulSwapLeft(f: Poly, g: Poly, h: Poly)
    ensures PolyMul(f, PolyMul(g, h)) == PolyMul(g, PolyMul(f, h))
  {
    PolyMulAssoc(f, g, h);
    PolyMulComm(f, g);
    PolyMulAssoc(g, f, h);
  }

  // ----- degree -----

  /** The leading coefficient of a product is the product of the leading coefficients. */
  lemma {:induction false} LeadingTerm(f: Poly, g: Poly)
    requires f != [] && g != []
    ensures At(PolyMul(f, g), |f| + |g| - 2) == Mul(f[|f| - 1], g[|g| - 1])
  {
    hide Mul, PolyMul;
    var t, i := f[1..], |f| + |g| - 2;
    MulAt(f, g, i);
    if t == [] {
      assert PolyMul(t, g) == [];
    } else {
      LeadingTerm(t, g);
      assert At(g, i) == 0;
      MulZeroOne(f[0]);
    }
  }

  lemma ProductLength(f: Poly, g: Poly)
    requires Canonical(f) && Canonical(g) && f != [] && g != []
    ensures |PolyMul(f, g)| == |f| + |g| - 1
  {
    LeadingTerm(f, g);
    MulNonZero(f[|f| - 1], g[|g| - 1]);
  }

  // ----- evaluation -----

  /** `f.evaluate(x)` */
  function Eval(f: Poly, x: F): F
  {
    if f == [] then 0 else Add(f[0], Mul(x, Eval(f[1..], x)))
  }

  lemma {:induction false} EvalSnocZero(f: Poly, x: F)
    ensures Eval(f + [0], x) == Eval(f, x)
  {
    hide Mul;
    MulZeroOne(x);
    if f == [] {
      assert (f + [0])[1..] == [];
    } else {
      EvalSnocZero(f[1..], x);
      assert (f + [0])[1..] == f[1..] + [0];
    }
  }

  lemma {:induction false} EvalPrefix(f: Poly, n: nat, x: F)
    requires n <= |f| && forall i :: n <= i < |f| ==> f[i] == 0
    ensures Eval(f[..n], x) == Eval(f, x)
    decreases |f| - n
  {
    hide Eval;
    if n == |f| {
      assert f[..n] == f;
    } else {
      EvalPrefix(f, n + 1, x);
      EvalSnocZero(f[..n], x);
      assert f[..n + 1] == f[..n] + [0];
    }
  }

  lemma EvalTrim(f: Poly, x: F)
    ensures Eval(Trim(f), x) == Eval(f, x)
  {
    EvalPrefix(f, TrimmedLength(f, |f|), x);
  }

  lemma EvalShift(f: Poly, x: F)
    ensures Eval(Shift(f), x) == Mul(x, Eval(f, x))
  {
    EvalTrim([0] + f, x);
    assert ([0] + f)[1..] == f;
  }

  lemma EvalConstant(c: F, x: F)
    ensures Eval([c], x) == c && Eval([], x) == 0
  {
    MulZeroOne(x);
    assert [c][1..] == [];
  }

  /** Pads with zeros up to length n. */
  function Pad(f: Poly, n: nat): (r: Poly)
    requires |f| <= n
    ensures |r| == n && forall i {:trigger At(r, i)} :: At(r, i) == At(f, i)
  {
    f + seq(n - |f|, _ => 0)
  }

  lemma EvalByCoefficients(f: Poly, g: Poly, x: F)
    requires forall i :: At(f, i) == At(g, i)
    ensures Eval(f, x) == Eval(g, x)
  {
    Extensional(Trim(f), Trim(g));
    EvalTrim(f, x);
    EvalTrim(g, x);
  }

  /** Evaluation of a vector of pointwise sums, by induction on the vectors. */
  lemma {:induction false} EvalSum(f: Poly, g: Poly, h: Poly, x: F)
    requires |f| == |g| == |h|
    requires forall i :: 0 <= i < |f| ==> h[i] == Add(f[i], g[i])
    ensures Eval(h, x) == Add(Eval(f, x), Eval(g, x))
  {
    hide Mul, Add;
    if f == [] {
      AddZero(0);
    } else {
      EvalSum(f[1..], g[1..], h[1..], x);
      MulAdd(x, Eval(f[1..], x), Eval(g[1..], x));
      AddSwap(f[0], g[0], Mul(x, Eval(f[1..], x)), Mul(x, Eval(g[1..], x)));
    }
  }

  lemma EvalAdd(f: Poly, g: Poly, x: F)
    ensures Eval(PolyAdd(f, g), x) == Add(Eval(f, x), Eval(g, x))
  {
    hide Mul;
    var n := Max(|f|, |g|);
    var f', g', h := Pad(f, n), Pad(g, n), Pad(PolyAdd(f, g), n);
    forall i | 0 <= i < n ensures h[i] == Add(f'[i], g'[i]) {
      assert At(h, i) == Add(At(f', i), At(g', i));
    }
    EvalSum(f', g', h, x);
    EvalByCoefficients(f, f', x);
    EvalByCoefficients(g, g', x);
    EvalByCoefficients(PolyAdd(f, g), h, x);
  }

  lemma {:induction false} EvalScaled(c: F, f: Poly, x: F)
    ensures Eval(seq(|f|, i => Mul(c, At(f, i))), x) == Mul(c, Eval(f, x))
  {
    hide Mul;
    var h := seq(|f|, i => Mul(c, At(f, i)));
    MulZeroOne(c);
    if f == [] {
    } else {
      var t := f[1..];
      EvalScaled(c, t, x);
      assert h[1..] == seq(|t|, i => Mul(c, At(t, i)));
      MulLeft(x, c, Eval(t, x));
      MulAdd(c, f[0], Mul(x, Eval(t, x)));
    }
  }

  lemma EvalScale(c: F, f: Poly, x: F)
    ensures Eval(Scale(c, f), x) == Mul(c, Eval(f, x))
  {
    EvalScaled(c, f, x);
    EvalTrim(seq(|f|, i => Mul(c, At(f, i))), x);
  }

  lemma EvalSub(f: Poly, g: Poly, x: F)
    ensures Eval(PolySub(f, g), x) == Sub(Eval(f, x), Eval(g, x))
  {
    hide *;
    PolySubAdd(f, g);
    EvalAdd(g, PolySub(f, g), x);
    EvalTrim(f, x);
    SubOfSum(Eval(g, x), Eval(PolySub(f, g), x));
  }

  lemma {:induction false} EvalMul(f: Poly, g: Poly, x: F)
    ensures Eval(PolyMul(f, g), x) == Mul(Eval(f, x), Eval(g, x))
  {
    hide Mul;
    MulZeroOne(Eval(g, x));
    if f == [] {
    } else {
      var t := f[1..];
      var e := Eval(g, x);
      EvalMul(t, g, x);
      EvalAdd(Scale(f[0], g), Shift(PolyMul(t, g)), x);
      EvalScale(f[0], g, x);
      EvalShift(PolyMul(t, g), x);
      MulAssoc(x, Eval(t, x), e);
      MulComm(f[0], e);
      MulComm(Mul(x, Eval(t, x)), e);
      MulAdd(e, f[0], Mul(x, Eval(t, x)));
      MulComm(e, Eval(f, x));
    }
  }

  /** At a constant term. */
  lemma EvalAtZero(f: Poly)
    ensures Eval(f, 0) == At(f, 0)
  {
    if f != [] { MulZeroOne(Eval(f[1..], 0)); }
  }
}
