/** Finite sums in F, taken from left to right as the folds of the source do. */
module Sums {
  import opened Sequences
  import opened Field

  function Sum(s: seq<F>): F {
    if s == [] then 0 else Add(Sum(s[..|s| - 1]), s[|s| - 1])
  }

  lemma SumSnoc(s: seq<F>, x: F)
    ensures Sum(s + [x]) == Add(Sum(s), x)
  {
    hide Add;
    assert (s + [x])[..|s|] == s;
  }

  lemma SumOne(x: F)
    ensures Sum([x]) == x && Sum([]) == 0
  {
    hide Add;
    assert [] + [x] == [x];
    SumSnoc([], x);
    AddZero(x);
  }

  lemma SumUpTo(s: seq<F>, i: nat)
    requires i < |s|
    ensures Sum(s[..i + 1]) == Add(Sum(s[..i]), s[i])
  {
    hide Add;
    assert s[..i + 1] == s[..i] + [s[i]];
    SumSnoc(s[..i], s[i]);
  }

  lemma {:induction false} SumConcat(s: seq<F>, t: seq<F>)
    ensures Sum(s + t) == Add(Sum(s), Sum(t))
  {
    hide Add;
    if t == [] {
      assert s + t == s;
      AddZero(Sum(s));
    } else {
      var t', x := t[..|t| - 1], t[|t| - 1];
      assert s + t == (s + t') + [x];
      SumSnoc(s + t', x);
      SumConcat(s, t');
      AddAssoc(Sum(s), Sum(t'), x);
    }
  }

  /** The products of the entries of two vectors, up to the shorter one. */
  function Products(c: seq<F>, v: seq<F>): (r: seq<F>)
    ensures |r| == if |c| < |v| then |c| else |v|
  {
    seq(if |c| < |v| then |c| else |v|, i requires 0 <= i < |c| && i < |v| => Mul(c[i], v[i]))
  }

  /** sum_i c_i v_i over the shorter of the two */
  function Dot(c: seq<F>, v: seq<F>): F { Sum(Products(c, v)) }

  /** The longer vector counts up to the length of the shorter one. */
  lemma DotCut(c: seq<F>, v: seq<F>)
    ensures var n := if |c| < |v| then |c| else |v|; Dot(c, v) == Dot(c[..n], v[..n])
  {
    hide Mul, Sum;
    var n := if |c| < |v| then |c| else |v|;
    assert Products(c, v) == Products(c[..n], v[..n]);
  }

  lemma DotSnoc(c: seq<F>, v: seq<F>, a: F, b: F)
    requires |c| == |v|
    ensures Dot(c + [a], v + [b]) == Add(Dot(c, v), Mul(a, b))
    ensures Dot([], []) == 0
  {
    hide Mul, Add, Sum;
    assert Products(c + [a], v + [b]) == Products(c, v) + [Mul(a, b)];
    SumSnoc(Products(c, v), Mul(a, b));
    SumOne(0);
    assert Products([], []) == [];
  }

  function ScaleAll(a: F, v: seq<F>): (r: seq<F>)
    ensures |r| == |v|
  {
    seq(|v|, i requires 0 <= i < |v| => Mul(a, v[i]))
  }

  lemma {:induction false} SumScale(a: F, v: seq<F>)
    ensures Sum(ScaleAll(a, v)) == Mul(a, Sum(v))
  {
    hide Mul, Add;
    if v == [] {
      MulZeroOne(a);
    } else {
      var t, x := v[..|v| - 1], v[|v| - 1];
      SumScale(a, t);
      assert ScaleAll(a, v)[..|t|] == ScaleAll(a, t);
      MulAdd(a, Sum(t), x);
    }
  }

  lemma DotScale(a: F, c: seq<F>, v: seq<F>)
    requires |c| == |v|
    ensures Dot(c, ScaleAll(a, v)) == Mul(a, Dot(c, v))
    ensures Dot(ScaleAll(a, c), v) == Mul(a, Dot(c, v))
  {
    hide Mul, Add, Sum;
    SumScale(a, Products(c, v));
    forall i | 0 <= i < |c|
      ensures Mul(c[i], Mul(a, v[i])) == Mul(a, Mul(c[i], v[i])) == Mul(Mul(a, c[i]), v[i])
    {
      MulLeft(c[i], a, v[i]);
      MulAssoc(a, c[i], v[i]);
    }
    assert Products(c, ScaleAll(a, v)) == ScaleAll(a, Products(c, v));
    assert Products(ScaleAll(a, c), v) == ScaleAll(a, Products(c, v));
  }

  lemma DotComm(c: seq<F>, v: seq<F>)
    ensures Dot(c, v) == Dot(v, c)
  {
    forall i | 0 <= i < |c| && i < |v| ensures Mul(c[i], v[i]) == Mul(v[i], c[i]) { MulComm(c[i], v[i]); }
    assert Products(c, v) == Products(v, c);
  }

  function AddAll(v: seq<F>, w: seq<F>): (r: seq<F>)
    requires |v| == |w|
    ensures |r| == |v|
  {
    seq(|v|, i requires 0 <= i < |v| => Add(v[i], w[i]))
  }

  lemma {:induction false} SumAddAll(v: seq<F>, w: seq<F>)
    requires |v| == |w|
    ensures Sum(AddAll(v, w)) == Add(Sum(v), Sum(w))
  {
    hide Add;
    if v == [] {
      AddZero(0);
    } else {
      var n := |v| - 1;
      SumAddAll(v[..n], w[..n]);
      assert AddAll(v, w)[..n] == AddAll(v[..n], w[..n]);
      AddSwap(Sum(v[..n]), Sum(w[..n]), v[n], w[n]);
    }
  }

  lemma DotAddRight(c: seq<F>, v: seq<F>, w: seq<F>)
    requires |c| == |v| == |w|
    ensures Dot(c, AddAll(v, w)) == Add(Dot(c, v), Dot(c, w))
  {
    hide Mul, Add, Sum;
    forall i | 0 <= i < |c| ensures Mul(c[i], Add(v[i], w[i])) == Add(Mul(c[i], v[i]), Mul(c[i], w[i])) {
      MulAdd(c[i], v[i], w[i]);
    }
    assert Products(c, AddAll(v, w)) == AddAll(Products(c, v), Products(c, w));
    SumAddAll(Products(c, v), Products(c, w));
  }

  /** A sum does not depend on the order of its terms. */
  lemma {:induction false} SumPermutation(s: seq<F>, t: seq<F>)
    requires multiset(s) == multiset(t)
    ensures Sum(s) == Sum(t)
    decreases |s|
  {
    hide Add;
    if s == [] {
      assert |t| == |multiset(t)| == 0;
    } else {
      var n := |s| - 1;
      var k := FindEqual(s, t);
      SumPermutation(s[..n], t[..k] + t[k + 1..]);
      SumRemove(t, k);
    }
  }

  lemma SumRemove(t: seq<F>, k: nat)
    requires k < |t|
    ensures Sum(t) == Add(Sum(t[..k] + t[k + 1..]), t[k])
  {
    hide *;
    var a, b, x := t[..k], t[k + 1..], t[k];
    assert t == (a + [x]) + b;
    SumConcat(a + [x], b);
    SumSnoc(a, x);
    SumConcat(a, b);
    AddAssoc(Sum(a), x, Sum(b));
    AddComm(x, Sum(b));
    AddAssoc(Sum(a), Sum(b), x);
  }

  /** A sum over rearranged entries is the same sum. */
  lemma {:induction false} SumMapReordered<T>(s: seq<T>, t: seq<T>, f: T -> F)
    requires multiset(s) == multiset(t)
    ensures Sum(Map(s, f)) == Sum(Map(t, f))
    decreases |s|
  {
    hide Add;
    if s == [] {
      assert |t| == |multiset(t)| == 0;
    } else {
      var n := |s| - 1;
      var k := FindEqual(s, t);
      var rest := t[..k] + t[k + 1..];
      SumMapReordered(s[..n], rest, f);
      assert Map(s, f)[..n] == Map(s[..n], f);
      assert Map(t, f)[..k] + Map(t, f)[k + 1..] == Map(rest, f);
      SumRemove(Map(t, f), k);
    }
  }
}
