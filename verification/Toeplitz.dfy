/** Multiplication of a vector by a Toeplitz matrix through a circulant matrix and
    fast transforms.  Group elements are represented by their discrete logarithms. */
module Toeplitz {
  import opened Field
  import opened Polynomials
  import opened Wrappers
  import opened FastDivision
  import opened EvaluationDomains

  // ----- cyclic convolution -----

  /** Coefficient i of the product of a and b modulo x^n - 1. */
  function CyclicAt(a: Poly, b: Poly, n: nat, i: nat): F {
    Add(At(PolyMul(a, b), i), At(PolyMul(a, b), i + n))
  }

  function CyclicProduct(a: Poly, b: Poly, n: nat): (r: Poly)
    ensures |r| == n
    ensures forall i :: 0 <= i < n ==> r[i] == CyclicAt(a, b, n, i)
  {
    seq(n, i requires 0 <= i => CyclicAt(a, b, n, i))
  }

  lemma {:induction false} EvalConcat(f: Poly, g: Poly, x: F)
    ensures Eval(f + g, x) == Add(Eval(f, x), Mul(Pow(x, |f|), Eval(g, x)))
  {
    hide Mul, Add;
    if f == [] {
      assert f + g == g;
      MulZeroOne(Eval(g, x));
      AddZero(Eval(g, x));
    } else {
      var t := f[1..];
      assert (f + g)[1..] == t + g;
      EvalConcat(t, g, x);
      MulAdd(x, Eval(t, x), Mul(Pow(x, |t|), Eval(g, x)));
      MulAssoc(x, Pow(x, |t|), Eval(g, x));
      AddAssoc(f[0], Mul(x, Eval(t, x)), Mul(Pow(x, |f|), Eval(g, x)));
    }
  }

  /** On the roots of x^n - 1 the cyclic product evaluates to the product of values. */
  lemma EvalCyclic(a: Poly, b: Poly, n: nat, x: F)
    requires n > 0 && |a| <= n && |b| <= n && Pow(x, n) == 1
    ensures Eval(CyclicProduct(a, b, n), x) == Mul(Eval(a, x), Eval(b, x))
  {
    hide Mul, PolyMul, Eval, Add, Pow, CyclicProduct;
    var p := PolyMul(a, b);
    assert |p| <= 2 * n;
    var padded := Pad(p, 2 * n);
    var low, high := padded[..n], padded[n..];
    EvalByCoefficients(p, padded, x);
    assert padded == low + high;
    EvalConcat(low, high, x);
    MulZeroOne(Eval(high, x));
    FoldHalves(a, b, n, low, high);
    EvalSum(low, high, CyclicProduct(a, b, n), x);
    EvalMul(a, b, x);
  }

  lemma FoldHalves(a: Poly, b: Poly, n: nat, low: Poly, high: Poly)
    requires n > 0 && |PolyMul(a, b)| <= 2 * n
    requires low == Pad(PolyMul(a, b), 2 * n)[..n] && high == Pad(PolyMul(a, b), 2 * n)[n..]
    ensures forall i :: 0 <= i < n ==> CyclicProduct(a, b, n)[i] == Add(low[i], high[i])
  {
    hide Mul, PolyMul, Add, Pad;
    var padded := Pad(PolyMul(a, b), 2 * n);
    forall i | 0 <= i < n ensures CyclicProduct(a, b, n)[i] == Add(low[i], high[i]) {
      assert low[i] == At(padded, i) && high[i] == At(padded, i + n);
    }
  }

  /** Multiplies one vector by another entry by entry. */
  function Pointwise(v: seq<F>, w: seq<F>): (r: seq<F>)
    requires |v| == |w|
    ensures |r| == |v|
  {
    seq(|v|, i requires 0 <= i < |v| => Mul(v[i], w[i]))
  }

  /** The convolution theorem. */
  lemma Convolution(d: FftDomain, a: Poly, b: Poly)
    requires d.Valid() && |a| == |b| == d.Size()
    ensures Ifft(d, Pointwise(Fft(d, a), Fft(d, b))) == CyclicProduct(a, b, d.Size())
  {
    hide Mul, PolyMul, Eval, Pow, Pow2, CyclicProduct, Ifft;
    var c := CyclicProduct(a, b, d.Size());
    forall i | 0 <= i < d.Size() ensures Eval(c, d.Element(i)) == Mul(Eval(a, d.Element(i)), Eval(b, d.Element(i))) {
      ElementPower(d, i);
      EvalCyclic(a, b, d.Size(), d.Element(i));
    }
    assert Fft(d, c) == Pointwise(Fft(d, a), Fft(d, b));
    IfftFft(d, c);
  }

  // ----- the circulant vector -----

  /** `build_circulant` */
  method BuildCirculant(f: Poly, n: nat) returns (circulant: Poly)
    requires f != [] && n >= |f| - 1 && n >= 1
    ensures |circulant| == 2 * n
    ensures CirculantOf(circulant, f, n)
    ensures circulant[n] == if n == |f| - 1 then f[n] else 0
  {
    var c := new F[2 * n](_ => 0);
    var l := |f|;
    if n == l - 1 {
      c[0] := f[l - 1];
      c[n] := f[l - 1];
      forall k | 0 <= k < l - 2 {
        c[n + 1 + k] := f[1 + k];
      }
    } else {
      forall k | 0 <= k < l - 1 {
        c[n + 1 + k] := f[1 + k];
      }
    }
    circulant := c[..];
    forall s | 0 < s < 2 * n
      ensures Add(At(circulant, s - n), At(circulant, s + n)) == At(f, s)
    {
      assert s < n ==> At(circulant, s + n) == c[n + 1 + (s - 1)];
    }
  }

  /** Reading the circulant n to the left and n to the right finds the coefficient. */
  ghost predicate CirculantOf(c: Poly, f: Poly, n: nat) {
    forall s :: 0 < s < 2 * n ==> Add(At(c, s - n), At(c, s + n)) == At(f, s)
  }

  /** sum_j v_j c_(s+j) */
  function Correlate(v: seq<F>, c: Poly, s: int): F {
    if v == [] then 0 else Add(Mul(v[0], At(c, s)), Correlate(v[1..], c, s + 1))
  }

  /** The circulant turns the two halves of the product into one Toeplitz row. */
  lemma {:induction false} CirculantRow(v: seq<F>, c: Poly, f: Poly, n: nat, s: int)
    requires CirculantOf(c, f, n) && 0 < s && s + |v| <= 2 * n
    ensures Add(Correlate(v, c, s - n), Correlate(v, c, s + n)) == Correlate(v, f, s)
  {
    hide Mul, Add, At, CirculantOf;
    if v == [] {
      AddZero(0);
    } else {
      var t := v[1..];
      CirculantRow(t, c, f, n, s + 1);
      CirculantAt(c, f, n, s);
      AddSwap(Mul(v[0], At(c, s - n)), Correlate(t, c, s - n + 1), Mul(v[0], At(c, s + n)), Correlate(t, c, s + n + 1));
      MulAdd(v[0], At(c, s - n), At(c, s + n));
    }
  }

  lemma CirculantAt(c: Poly, f: Poly, n: nat, s: int)
    requires CirculantOf(c, f, n) && 0 < s < 2 * n
    ensures Add(At(c, s - n), At(c, s + n)) == At(f, s)
  {
  }

  // ----- the reversed, padded vector -----

  /** A vector holding v backwards, ending at position n - 1. */
  ghost predicate ReversedInto(a: Poly, v: seq<F>, n: nat) {
    forall k :: At(a, k) == At(v, n - 1 - k)
  }

  lemma {:induction false} ReversedProduct(a: Poly, v: seq<F>, n: nat, c: Poly, k: int)
    requires ReversedInto(a, v, n) && |v| <= n
    ensures At(PolyMul(a, c), k) == Correlate(v, c, k - n + 1)
    decreases |v|
  {
    hide Mul, PolyMul, Add, ReversedInto, At, ShiftBy;
    if v == [] {
      NothingReversed(a, n, c, k);
    } else {
      var t := v[1..];
      var top := ShiftBy([v[0]], n - 1);
      var rest := seq(n - 1, i => At(t, n - 2 - i));
      assert ReversedInto(rest, t, n - 1) by { RestReversed(rest, t, n - 1); }
      ReversedProduct(rest, t, n - 1, c, k);
      SplitTop(a, v, n, top, rest);
      SplitProductAt(a, top, rest, c, k);
      MonomialProductAt(v[0], n - 1, c, k);
    }
  }

  lemma SplitProductAt(a: Poly, b: Poly, b': Poly, c: Poly, k: int)
    requires Trim(a) == PolyAdd(b, b')
    ensures At(PolyMul(a, c), k) == Add(At(PolyMul(b, c), k), At(PolyMul(b', c), k))
  {
    hide Mul, PolyMul, Add;
    MulTrimLeft(a, c);
    AddMul(b, b', c);
  }

  lemma MonomialProductAt(x: F, n: nat, c: Poly, k: int)
    ensures At(PolyMul(ShiftBy([x], n), c), k) == Mul(x, At(c, k - n))
  {
    hide Mul, PolyMul, ShiftBy;
    PolyMulComm(ShiftBy([x], n), c);
    MulMonomial(c, x, n);
    assert At(ShiftBy(c, n), k) == At(c, k - n);
  }

  lemma NothingReversed(a: Poly, n: nat, c: Poly, k: int)
    requires ReversedInto(a, [], n)
    ensures At(PolyMul(a, c), k) == 0
  {
    Extensional(Trim(a), []);
    MulTrimLeft(a, c);
  }

  lemma RestReversed(rest: Poly, t: seq<F>, n: nat)
    requires |t| <= n && rest == seq(n, i => At(t, n - 1 - i))
    ensures ReversedInto(rest, t, n)
  {
  }

  lemma SplitTop(a: Poly, v: seq<F>, n: nat, top: Poly, rest: Poly)
    requires v != [] && |v| <= n && ReversedInto(a, v, n)
    requires top == ShiftBy([v[0]], n - 1) && ReversedInto(rest, v[1..], n - 1)
    ensures Trim(a) == PolyAdd(top, rest)
  {
    hide Add, ShiftBy;
    forall i ensures At(a, i) == At(PolyAdd(top, rest), i) {
      assert At(top, i) == At([v[0]], i - (n - 1));
      assert At(rest, i) == At(v[1..], n - 2 - i);
      AddZero(At(top, i));
      AddZero(At(rest, i));
    }
    Extensional(Trim(a), PolyAdd(top, rest));
  }

  // ----- toeplitz_mul -----

  /** Row i of the matrix times v: sum_j f_(i+j+1) v_j. */
  function ToeplitzRow(f: Poly, v: seq<F>, i: nat): F {
    Correlate(v, f, i + 1)
  }

  lemma CyclicRow(a: Poly, v: seq<F>, c: Poly, f: Poly, n: nat, i: nat)
    requires i < n && |v| <= n && ReversedInto(a, v, n) && CirculantOf(c, f, n)
    ensures CyclicProduct(a, c, 2 * n)[i] == ToeplitzRow(f, v, i)
  {
    hide Mul, PolyMul, Add, Correlate, CirculantOf, ReversedInto, At, CyclicProduct;
    ReversedProduct(a, v, n, c, i);
    ReversedProduct(a, v, n, c, i + 2 * n);
    CirculantRow(v, c, f, n, i + 1);
  }

  /** `toeplitz_mul`; the second result is the inverse of the transform size. */
  method ToeplitzMul(polynomial: Poly, v: seq<F>, requested: nat) returns (r: Result<(seq<F>, F), string>)
    requires polynomial != [] && (requested > 0 || |polynomial| > 1)
    requires var d := NewFftDomain(2 * Max(requested, |polynomial| - 1));
             d.Some? ==> |v| <= d.value.Size() / 2
    ensures var d := NewFftDomain(2 * Max(requested, |polynomial| - 1));
            && (r.Err? <==> d.None?)
            && (r.Ok? ==>
                  && |r.value.0| == d.value.Size() / 2
                  && (forall i :: 0 <= i < |r.value.0| ==> r.value.0[i] == ToeplitzRow(polynomial, v, i))
                  && Mul(FromNat(d.value.Size()), r.value.1) == 1)
  {
    hide Mul, PolyMul, Add, CirculantOf, ReversedInto, ToeplitzRow, Pointwise, Ifft, Fft, NewFftDomain, Pow;
    var size := Max(requested, |polynomial| - 1);
    var made := NewFftDomain(2 * size);
    if made.None? {
      return Err("toeplitz multiplication on too large a domain");
    }
    var d := made.value;
    SizeIsEven(d, size);
    var n := d.Size() / 2;
    var circulant := BuildCirculant(polynomial, n);
    var tmp := seq(n - |v|, _ => 0) + Reverse(v);
    tmp := Pad(tmp, d.Size());
    TmpIsReversed(tmp, v, n);
    Convolution(d, tmp, circulant);
    var product := Ifft(d, Pointwise(Fft(d, tmp), Fft(d, circulant)));
    forall i | 0 <= i < n ensures product[..n][i] == ToeplitzRow(polynomial, v, i) {
      CyclicRow(tmp, v, circulant, polynomial, n, i);
    }
    SizeNonZero(d);
    r := Ok((product[..n], Inv(FromNat(d.Size()))));
  }

  lemma TmpIsReversed(tmp: Poly, v: seq<F>, n: nat)
    requires |v| <= n && tmp == Pad(seq(n - |v|, _ => 0) + Reverse(v), 2 * n)
    ensures ReversedInto(tmp, v, n)
  {
    forall k ensures At(tmp, k) == At(v, n - 1 - k) {
      assert At(tmp, k) == At(seq(n - |v|, _ => 0) + Reverse(v), k);
      assert At(Reverse(v), k - (n - |v|)) == At(v, n - 1 - k);
    }
  }

  lemma SizeIsEven(d: FftDomain, size: nat)
    requires size > 0 && 2 * size <= d.Size()
    ensures d.Size() % 2 == 0 && d.Size() / 2 >= size
  {
  }
}
