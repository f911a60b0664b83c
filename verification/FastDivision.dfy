/** Division with remainder in nearly linear time: reverse, invert as a power
    series, reverse back.  Proved equal to schoolbook long division. */
module FastDivision {
  import opened Field
  import opened Polynomials
  import opened NewtonInverse

  // ----- long division, the reference -----

  /** x^n f */
  function ShiftBy(f: Poly, n: nat): (r: Poly)
    ensures Canonical(r)
    ensures forall i {:trigger At(r, i)} :: At(r, i) == At(f, i - n)
  {
    if n == 0 then Trim(f) else Shift(ShiftBy(f, n - 1))
  }

  /** Schoolbook division: cancel the leading coefficient until the dividend is short. */
  function LongDivide(f: Poly, g: Poly): (qr: (Poly, Poly))
    requires g != [] && g[|g| - 1] != 0
    ensures Canonical(qr.0) && Canonical(qr.1) && |qr.1| < |g|
    decreases |f|
  {
    if |f| < |g| then ([], Trim(f)) else
      var c := Div(f[|f| - 1], g[|g| - 1]);
      var term := ShiftBy([c], |f| - |g|);
      CancelLeading(f, g);
      var (q, r) := LongDivide(PolySub(f, Scale(c, ShiftBy(g, |f| - |g|))), g);
      (PolyAdd(q, term), r)
  }

  lemma CancelLeading(f: Poly, g: Poly)
    requires g != [] && g[|g| - 1] != 0 && |f| >= |g|
    ensures var c := Div(f[|f| - 1], g[|g| - 1]);
            |PolySub(f, Scale(c, ShiftBy(g, |f| - |g|)))| < |f|
  {
    hide Mul, Sub, Div, ShiftBy, Scale, PolySub;
    var c := Div(f[|f| - 1], g[|g| - 1]);
    var h := PolySub(f, Scale(c, ShiftBy(g, |f| - |g|)));
    DivMul(f[|f| - 1], g[|g| - 1]);
    MulZeroOne(c);
    forall i | i >= |f| - 1 ensures At(h, i) == 0 {
      assert At(h, i) == Sub(At(f, i), Mul(c, At(g, i - (|f| - |g|))));
      SubZero(At(f, i), At(f, i));
    }
    LengthBound(h, |f| - 1);
  }

  lemma {:induction false} MulMonomial(g: Poly, c: F, n: nat)
    ensures PolyMul(g, ShiftBy([c], n)) == Scale(c, ShiftBy(g, n))
  {
    hide Mul, PolyMul, Scale, Shift, Trim, At;
    if n == 0 {
      MulTrimRight(g, [c]);
      MulConstant(g, c);
      ScaleTrim(c, g);
    } else {
      MulMonomial(g, c, n - 1);
      MulShift(g, ShiftBy([c], n - 1));
      ShiftScale(c, ShiftBy(g, n - 1));
    }
  }

  /** f = g q + r */
  lemma {:induction false} LongDivideCorrect(f: Poly, g: Poly)
    requires g != [] && g[|g| - 1] != 0
    ensures var (q, r) := LongDivide(f, g); Trim(f) == PolyAdd(PolyMul(g, q), r)
    decreases |f|
  {
    hide Mul, PolyMul;
    if |f| < |g| {
      PolyMulComm(g, []);
      PolyAddZero(Trim(f));
      TrimCanonical(Trim(f));
    } else {
      var c, n := Div(f[|f| - 1], g[|g| - 1]), |f| - |g|;
      var s := Scale(c, ShiftBy(g, n));
      var h := PolySub(f, s);
      CancelLeading(f, g);
      LongDivideCorrect(h, g);
      var (q, r) := LongDivide(h, g);
      TrimCanonical(h);
      PolySubAdd(f, s);
      MulMonomial(g, c, n);
      PolyMulAdd(g, q, ShiftBy([c], n));
      PolyAddComm(PolyMul(g, q), s);
      PolyAddAssoc(s, PolyMul(g, q), r);
    }
  }

  /** Quotient and remainder are unique. */
  lemma DivisionUnique(g: Poly, q: Poly, r: Poly, q': Poly, r': Poly)
    requires Canonical(g) && Canonical(q) && Canonical(r) && Canonical(q') && Canonical(r')
    requires |r| < |g| && |r'| < |g|
    requires PolyAdd(PolyMul(g, q), r) == PolyAdd(PolyMul(g, q'), r')
    ensures q == q' && r == r'
  {
    hide Mul, PolyMul, Add, Sub;
    var d := PolySub(q, q');
    MulSubLeft(g, q, q');
    EqualPolySums(PolyMul(g, q), PolyMul(g, q'), r, r');
    if d != [] {
      ProductLength(g, d);
    }
    assert PolyMul(g, []) == [];
    DifferenceZero(q, q');
    DifferenceZero(r', r);
  }

  lemma EqualPolySums(a: Poly, b: Poly, r: Poly, s: Poly)
    requires PolyAdd(a, r) == PolyAdd(b, s)
    ensures PolySub(a, b) == PolySub(s, r)
  {
    hide Add, Sub, PolyAdd, PolySub;
    forall i ensures At(PolySub(a, b), i) == At(PolySub(s, r), i) {
      assert At(PolyAdd(a, r), i) == At(PolyAdd(b, s), i);
      EqualSums(At(a, i), At(b, i), At(r, i), At(s, i));
    }
    Extensional(PolySub(a, b), PolySub(s, r));
  }

  lemma DifferenceZero(f: Poly, g: Poly)
    requires Canonical(f) && Canonical(g)
    ensures PolySub(f, g) == [] <==> f == g
  {
    hide Add, Sub, PolyAdd, PolySub;
    PolySubAdd(f, g);
    PolyAddZero(g);
    TrimCanonical(f);
    TrimCanonical(g);
  }

  // ----- reversal -----

  /** The coefficients in reverse order. */
  function Reverse(f: Poly): (r: Poly)
    ensures |r| == |f|
    ensures forall i {:trigger At(r, i)} :: At(r, i) == At(f, |f| - 1 - i)
  {
    seq(|f|, i requires 0 <= i < |f| => f[|f| - 1 - i])
  }

  /** `rev`: pads to length m + 1, then reverses. */
  method Rev(f: Poly, m: nat) returns (r: Poly)
    requires f != [] && |f| - 1 <= m
    ensures r == Reverse(Pad(f, m + 1))
  {
    r := f;
    for k := 0 to m - (|f| - 1)
      invariant |r| == |f| + k
      invariant r == Pad(f, |f| + k)
    {
      r := r + [0];
      assert r == Pad(f, |f| + k + 1);
    }
    r := Reverse(r);
  }

  lemma {:induction false} EvalSnoc(f: Poly, c: F, x: F)
    ensures Eval(f + [c], x) == Add(Eval(f, x), Mul(c, Pow(x, |f|)))
  {
    hide Mul;
    if f == [] {
      EvalConstant(c, x);
      assert f + [c] == [c];
      MulZeroOne(c);
    } else {
      var t := f[1..];
      EvalSnoc(t, c, x);
      assert (f + [c])[1..] == t + [c];
      MulAdd(x, Eval(t, x), Mul(c, Pow(x, |t|)));
      MulLeft(x, c, Pow(x, |t|));
    }
  }

  /** rev_m(f)(x) = x^m f(1/x) wherever x is invertible. */
  lemma {:induction false} ReverseMeaning(f: Poly, x: F)
    requires f != [] && x != 0
    ensures Eval(Reverse(f), x) == Mul(Pow(x, |f| - 1), Eval(f, Inv(x)))
  {
    hide Mul;
    var y := Inv(x);
    if |f| == 1 {
      assert Reverse(f) == f == [f[0]];
      EvalConstant(f[0], x);
      EvalConstant(f[0], y);
      MulZeroOne(f[0]);
    } else {
      var t := f[1..];
      ReverseMeaning(t, x);
      assert Reverse(f) == Reverse(t) + [f[0]];
      EvalSnoc(Reverse(t), f[0], x);
      ReverseStep(x, Pow(x, |t| - 1), f[0], Eval(t, y));
    }
  }

  /** p e + c (x p) = (x p)(c + e / x) */
  lemma ReverseStep(x: F, p: F, c: F, e: F)
    requires x != 0
    ensures Add(Mul(p, e), Mul(c, Mul(x, p))) == Mul(Mul(x, p), Add(c, Mul(Inv(x), e)))
  {
    hide Mul;
    var y := Inv(x);
    MulAdd(Mul(x, p), c, Mul(y, e));
    MulComm(c, Mul(x, p));
    MulSwap(x, p, y, e);
    MulZeroOne(Mul(p, e));
    AddComm(Mul(p, e), Mul(c, Mul(x, p)));
  }

  /** Reversal reverses products: coefficient k of f g is coefficient (deg - k) of rev f rev g. */
  lemma {:induction false} ReverseProduct(f: Poly, g: Poly, k: int)
    requires f != [] && g != []
    ensures At(PolyMul(f, g), k) == At(PolyMul(Reverse(f), Reverse(g)), |f| + |g| - 2 - k)
  {
    hide Mul, PolyMul, Add, Reverse;
    var t, h := f[1..], Reverse(g);
    var j := |f| + |g| - 2 - k;
    MulAt(f, g, k);
    ReverseFirst(f, h, j);
    assert At(h, j - |t|) == At(g, k);
    if t == [] {
      assert Reverse(t) == [];
    } else {
      ReverseProduct(t, g, k - 1);
    }
    AddComm(Mul(f[0], At(g, k)), At(PolyMul(t, g), k - 1));
  }

  /** rev f = rev t + f(0) x^|t| for the tail t, seen through a product. */
  lemma ReverseFirst(f: Poly, h: Poly, j: int)
    requires f != []
    ensures var t := f[1..];
            At(PolyMul(Reverse(f), h), j) == Add(At(PolyMul(Reverse(t), h), j), Mul(f[0], At(h, j - |t|)))
  {
    hide Mul, PolyMul, Reverse, ShiftBy;
    var t := f[1..];
    var top := ShiftBy([f[0]], |t|);
    forall i ensures At(Reverse(f), i) == At(PolyAdd(Reverse(t), top), i) {
      assert At(top, i) == At([f[0]], i - |t|);
      assert At(Reverse(t), i) == At(t, |t| - 1 - i);
      assert At(Reverse(f), i) == At(f, |f| - 1 - i);
    }
    Extensional(Trim(Reverse(f)), PolyAdd(Reverse(t), top));
    MulTrimLeft(Reverse(f), h);
    AddMul(Reverse(t), top, h);
    PolyMulComm(top, h);
    MulMonomial(h, f[0], |t|);
    assert At(ShiftBy(h, |t|), j) == At(h, j - |t|);
  }

  // ----- fast division -----

  /** A quotient found through reversal cancels every coefficient from |g| - 1 up. */
  lemma ReversalCancels(f: Poly, g: Poly, v: Poly, q: Poly)
    requires g != [] && |f| >= |g|
    requires |q| == |f| - |g| + 1
    requires AgreeMod(PolyMul(Reverse(g), v), ONE, |q|)
    requires AgreeMod(Reverse(q), PolyMul(Reverse(f), v), |q|)
    ensures forall k :: k >= |g| - 1 ==> At(PolyMul(g, q), k) == At(f, k)
  {
    forall k | k >= |g| - 1 ensures At(PolyMul(g, q), k) == At(f, k) {
      ReversalCancelsAt(f, g, v, q, k);
    }
  }

  lemma ReversalCancelsAt(f: Poly, g: Poly, v: Poly, q: Poly, k: nat)
    requires g != [] && |f| >= |g| && k >= |g| - 1
    requires |q| == |f| - |g| + 1
    requires AgreeMod(PolyMul(Reverse(g), v), ONE, |q|)
    requires AgreeMod(Reverse(q), PolyMul(Reverse(f), v), |q|)
    ensures At(PolyMul(g, q), k) == At(f, k)
  {
    hide *;
    ReversedProductIs(f, g, v, q, k);
    InverseCancels(Reverse(f), Reverse(g), v, |q|, |f| - 1 - k);
    ReverseAt(f, k);
  }

  lemma ReverseAt(f: Poly, k: int)
    ensures At(Reverse(f), |f| - 1 - k) == At(f, k)
  {
  }

  lemma ReversedProductIs(f: Poly, g: Poly, v: Poly, q: Poly, k: nat)
    requires g != [] && |f| >= |g| && k >= |g| - 1
    requires |q| == |f| - |g| + 1
    requires AgreeMod(Reverse(q), PolyMul(Reverse(f), v), |q|)
    ensures At(PolyMul(g, q), k) == At(PolyMul(Reverse(g), PolyMul(Reverse(f), v)), |f| - 1 - k)
  {
    hide *;
    var G, Q, h := Reverse(g), Reverse(q), PolyMul(Reverse(f), v);
    ReverseProduct(g, q, k);
    MulAgree(G, Q, h, |q|);
    AgreeAt(PolyMul(G, Q), PolyMul(G, h), |q|, |f| - 1 - k);
  }

  /** g v = 1 mod x^n makes g (h v) = h mod x^n. */
  lemma InverseCancels(h: Poly, g: Poly, v: Poly, n: nat, i: int)
    requires AgreeMod(PolyMul(g, v), ONE, n) && i < n
    ensures At(PolyMul(g, PolyMul(h, v)), i) == At(h, i)
  {
    hide *;
    MulSwapLeft(g, h, v);
    MulAgree(h, PolyMul(g, v), ONE, n);
    AgreeAt(PolyMul(h, PolyMul(g, v)), PolyMul(h, ONE), n, i);
    MulOne(h);
  }

  /** Cut or padded with zeros to n coefficients. */
  function Resize(f: Poly, n: nat): (r: Poly)
    ensures |r| == n && AgreeMod(r, f, n)
  {
    if |f| <= n then Pad(f, n) else f[..n]
  }

  /** `fast_divide_monic`.  It needs only an invertible leading coefficient. */
  method FastDivideMonic(func: Poly, divisor: Poly) returns (quotient: Poly, remainder: Poly)
    requires divisor != [] && divisor[|divisor| - 1] != 0
    ensures (Trim(quotient), Trim(remainder)) == LongDivide(func, divisor)
    ensures |func| < |divisor| ==> quotient == [0] && remainder == func
    ensures |func| >= |divisor| ==> |quotient| == |func| - |divisor| + 1 && Canonical(remainder)
  {
    hide Mul, PolyMul;
    if |func| < |divisor| {
      assert Trim([0]) == [];
      return [0], func;
    }
    var degDiff := |func| - |divisor|;
    var revF := Reverse(func);
    var revG := Reverse(divisor);
    assert revG[0] == At(revG, 0) == At(divisor, |divisor| - 1);
    var inverse := InverseModXl(revG, degDiff + 1);
    quotient := Resize(PolyMul(revF, inverse.value), degDiff + 1);
    ghost var resized := quotient;
    quotient := Rev(quotient, degDiff);
    assert Pad(resized, degDiff + 1) == resized;
    assert Reverse(quotient) == resized;
    ReversalCancels(func, divisor, inverse.value, quotient);
    remainder := PolySub(func, PolyMul(divisor, quotient));
    FastIsLong(func, divisor, quotient, remainder);
  }

  lemma FastIsLong(func: Poly, divisor: Poly, quotient: Poly, remainder: Poly)
    requires divisor != [] && divisor[|divisor| - 1] != 0
    requires forall k :: k >= |divisor| - 1 ==> At(PolyMul(divisor, quotient), k) == At(func, k)
    requires remainder == PolySub(func, PolyMul(divisor, quotient))
    ensures (Trim(quotient), Trim(remainder)) == LongDivide(func, divisor)
  {
    hide Mul, PolyMul;
    forall k | k >= |divisor| - 1 ensures At(remainder, k) == 0 {
      assert At(PolyMul(divisor, quotient), k) == At(func, k);
    }
    LengthBound(remainder, |divisor| - 1);
    TrimCanonical(remainder);
    MulTrimRight(divisor, quotient);
    PolySubAdd(func, PolyMul(divisor, quotient));
    LongDivideCorrect(func, divisor);
    var (q, r) := LongDivide(func, divisor);
    DivisionUnique(divisor, Trim(quotient), remainder, q, r);
  }
}
