/** Batch verification of fast decryption shares: one random linear combination of
    all pairing equations. */
module BatchVerification {
  import opened Field
  import opened Sums
  import opened Groups
  import opened Ciphertexts
  import opened Contexts
  import opened Decryption

  /** The blinding keys, taken from the decrypters of the first row. */
  function BlindingKeys(pubContexts: seq<PublicContextFast>, row: seq<ShareFast>): (r: seq<G2>)
    requires IndicesInRange(pubContexts, row)
    ensures |r| == |row|
  {
    seq(|row|, j requires 0 <= j < |row| => BlindingKeyOf(pubContexts, row[j]))
  }

  /** The shares of a row weighted by its random scalars; a short row counts as zero
      where it has no share. */
  function WeightedRow(alphas: seq<F>, row: seq<ShareFast>): (r: seq<G1>)
    ensures |r| == |alphas|
  {
    seq(|alphas|, j requires 0 <= j < |alphas| => if j < |row| then Mul(row[j].decryptionShare, alphas[j]) else 0)
  }

  /** The number of rows that are paired with a row of scalars. */
  function PairedRows(alphas: seq<seq<F>>, rows: seq<seq<ShareFast>>): nat {
    if |rows| < |alphas| then |rows| else |alphas|
  }

  /** sum_j e([alpha_ij] D_ij, B_j) for every paired row i */
  function RowPairings(keys: seq<G2>, alphas: seq<seq<F>>, rows: seq<seq<ShareFast>>): (r: seq<GT>)
    ensures |r| == PairedRows(alphas, rows)
  {
    seq(PairedRows(alphas, rows), i requires 0 <= i < |alphas| && i < |rows| =>
      Dot(WeightedRow(alphas[i], rows[i]), keys))
  }

  /** [sum_j alpha_ij] U_i for every ciphertext i */
  function WeightedCommitments(cs: seq<Ciphertext>, alphas: seq<seq<F>>): (r: seq<G1>)
    requires |alphas| == |cs|
    ensures |r| == |cs|
  {
    seq(|cs|, i requires 0 <= i < |cs| => Mul(cs[i].commitment, Sum(alphas[i])))
  }

  /** One random scalar for every ciphertext and every share of the first row. */
  ghost predicate ScalarsFit(cs: seq<Ciphertext>, n: nat, alphas: seq<seq<F>>) {
    |alphas| == |cs| && forall i :: 0 <= i < |alphas| ==> |alphas[i]| == n
  }

  ghost predicate BatchAccepts(keys: seq<G2>, cs: seq<Ciphertext>, rows: seq<seq<ShareFast>>, alphas: seq<seq<F>>)
    requires |alphas| == |cs|
  {
    Sum(RowPairings(keys, alphas, rows)) == Sum(WeightedCommitments(cs, alphas))
  }

  /** `batch_verify_decryption_shares` */
  method BatchVerify(pubContexts: seq<PublicContextFast>, cs: seq<Ciphertext>,
                     rows: seq<seq<ShareFast>>, alphas: seq<seq<F>>) returns (valid: bool)
    requires pubContexts != [] && pubContexts[0].hInv == Neg(G2_GENERATOR)
    requires rows != [] && IndicesInRange(pubContexts, rows[0])
    requires ScalarsFit(cs, |rows[0]|, alphas)
    ensures valid <==> BatchAccepts(BlindingKeys(pubContexts, rows[0]), cs, rows, alphas)
  {
    hide Mul, Add, Sum, WeightedRow, RowPairings, WeightedCommitments, BlindingKeys, ProductOfPairings, Pairing;
    var keys := BlindingKeys(pubContexts, rows[0]);
    var n := |rows[0]|;
    var sumU := Sum(WeightedCommitments(cs, alphas));
    var pairings := [(sumU, pubContexts[0].hInv)];

    var sumD := seq(n, _ => 0);
    DotZeros(n, keys);
    SumOne(0);
    for i := 0 to PairedRows(alphas, rows)
      invariant |sumD| == n
      invariant Dot(sumD, keys) == Sum(RowPairings(keys, alphas, rows)[..i])
    {
      AddRow(keys, sumD, alphas, rows, i);
      sumD := AccumulateRow(sumD, alphas[i], rows[i]);
    }
    var terms := RowPairings(keys, alphas, rows);
    assert terms[..|terms|] == terms;

    for j := 0 to n
      invariant |pairings| == j + 1
      invariant pairings[0] == (sumU, pubContexts[0].hInv)
      invariant forall k :: 0 <= k < j ==> pairings[k + 1] == (sumD[k], keys[k])
    {
      pairings := pairings + [(sumD[j], keys[j])];
    }
    PairingsAre(pairings, sumU, sumD, keys);
    valid := ProductOfPairings(pairings) == GT_ONE;
  }

  /** Adds the shares of one row, each weighted with the scalar of its column. */
  method AccumulateRow(sumD: seq<G1>, alphas: seq<F>, row: seq<ShareFast>) returns (r: seq<G1>)
    requires |sumD| == |alphas|
    ensures r == AddAll(sumD, WeightedRow(alphas, row))
  {
    hide Mul, Add;
    r := sumD;
    var n := if |row| < |sumD| then |row| else |sumD|;
    for j := 0 to n
      invariant |r| == |sumD|
      invariant forall k :: 0 <= k < j ==> r[k] == Add(sumD[k], Mul(row[k].decryptionShare, alphas[k]))
      invariant forall k :: j <= k < |r| ==> r[k] == sumD[k]
    {
      r := r[j := Add(r[j], Mul(row[j].decryptionShare, alphas[j]))];
    }
    forall k | 0 <= k < |r| ensures r[k] == AddAll(sumD, WeightedRow(alphas, row))[k] { AddZero(sumD[k]); }
  }

  lemma AddRow(keys: seq<G2>, sumD: seq<G1>, alphas: seq<seq<F>>, rows: seq<seq<ShareFast>>, i: nat)
    requires i < PairedRows(alphas, rows) && |sumD| == |keys| == |alphas[i]|
    requires Dot(sumD, keys) == Sum(RowPairings(keys, alphas, rows)[..i])
    ensures Dot(AddAll(sumD, WeightedRow(alphas[i], rows[i])), keys) == Sum(RowPairings(keys, alphas, rows)[..i + 1])
  {
    hide Mul, Add, Sum, AddAll, WeightedRow, Dot;
    var row := WeightedRow(alphas[i], rows[i]);
    SumUpTo(RowPairings(keys, alphas, rows), i);
    DotComm(AddAll(sumD, row), keys);
    DotAddRight(keys, sumD, row);
    DotComm(sumD, keys);
    DotComm(row, keys);
  }

  lemma DotZeros(n: nat, v: seq<F>)
    requires |v| == n
    ensures Dot(seq(n, _ => 0), v) == 0
  {
    hide Mul, Add, Sum;
    forall i | 0 <= i < n ensures Mul(0, v[i]) == 0 { MulZeroOne(v[i]); }
    SumZeros(Products(seq(n, _ => 0), v));
  }

  lemma {:induction false} SumZeros(s: seq<F>)
    requires forall i :: 0 <= i < |s| ==> s[i] == 0
    ensures Sum(s) == 0
  {
    if s != [] { SumZeros(s[..|s| - 1]); AddZero(0); }
  }

  lemma PairingsAre(pairings: seq<(G1, G2)>, sumU: G1, sumD: seq<G1>, keys: seq<G2>)
    requires |sumD| == |keys| && |pairings| == |keys| + 1
    requires pairings[0] == (sumU, Neg(G2_GENERATOR))
    requires forall k :: 0 <= k < |keys| ==> pairings[k + 1] == (sumD[k], keys[k])
    ensures ProductOfPairings(pairings) == GT_ONE <==> Dot(sumD, keys) == sumU
  {
    hide Mul, Add, Sum;
    assert PairingTerms(pairings) == [Mul(sumU, Neg(1))] + Products(sumD, keys);
    SumConcat([Mul(sumU, Neg(1))], Products(sumD, keys));
    SumOne(Mul(sumU, Neg(1)));
    MulNeg(sumU, 1);
    MulZeroOne(sumU);
    NegCancel(sumU, Dot(sumD, keys));
  }

  // ----- rows of any lengths -----

  /** The row cut to n shares or filled up with neutral ones. */
  function RegularRow(row: seq<ShareFast>, n: nat): (r: seq<ShareFast>)
    ensures |r| == n
  {
    seq(n, j requires 0 <= j => if j < |row| then row[j] else ShareFast(0, 0))
  }

  /** One such row for every ciphertext; a missing row has only neutral shares. */
  function RegularRows(rows: seq<seq<ShareFast>>, m: nat, n: nat): (r: seq<seq<ShareFast>>)
    ensures |r| == m
    ensures forall i :: 0 <= i < m ==> r[i] == RegularRow(if i < |rows| then rows[i] else [], n)
  {
    seq(m, i requires 0 <= i => RegularRow(if i < |rows| then rows[i] else [], n))
  }

  /** Shares beyond the first row's length and rows beyond the ciphertexts are ignored,
      and missing ones count as neutral. */
  lemma BatchOfAnyRows(keys: seq<G2>, cs: seq<Ciphertext>, rows: seq<seq<ShareFast>>, alphas: seq<seq<F>>)
    requires ScalarsFit(cs, |keys|, alphas)
    ensures Rectangular(keys, cs, RegularRows(rows, |cs|, |keys|))
    ensures BatchAccepts(keys, cs, rows, alphas) <==>
            BatchAccepts(keys, cs, RegularRows(rows, |cs|, |keys|), alphas)
  {
    hide Mul, Add, Sum, WeightedRow, Dot, RegularRow;
    var regular := RegularRows(rows, |cs|, |keys|);
    var some, all := RowPairings(keys, alphas, rows), RowPairings(keys, alphas, regular);
    forall i | 0 <= i < |cs|
      ensures all[i] == if i < |some| then some[i] else 0
    {
      if i < |some| {
        RegularWeights(alphas[i], rows[i], |keys|);
      } else {
        RegularWeights(alphas[i], [], |keys|);
        NoWeights(alphas[i]);
        DotZeros(|keys|, keys);
      }
    }
    var zeros := seq(|all| - |some|, _ => 0);
    assert all == some + zeros;
    SumConcat(some, zeros);
    SumZeros(zeros);
    AddZero(Sum(some));
  }

  lemma RegularWeights(alphas: seq<F>, row: seq<ShareFast>, n: nat)
    requires |alphas| == n
    ensures WeightedRow(alphas, RegularRow(row, n)) == WeightedRow(alphas, row)
  {
    hide Mul;
    forall j | 0 <= j < n ensures WeightedRow(alphas, RegularRow(row, n))[j] == WeightedRow(alphas, row)[j] {
      MulZeroOne(alphas[j]);
    }
  }

  lemma NoWeights(alphas: seq<F>)
    ensures WeightedRow(alphas, []) == seq(|alphas|, _ => 0)
  {
  }

  // ----- exactness -----

  /** Every row has a share for every key, and every ciphertext has a row. */
  ghost predicate Rectangular(keys: seq<G2>, cs: seq<Ciphertext>, rows: seq<seq<ShareFast>>) {
    |rows| == |cs| && forall i :: 0 <= i < |rows| ==> |rows[i]| == |keys|
  }

  /** The errors of one row against the keys. */
  function RowErrors(keys: seq<G2>, u: G1, row: seq<ShareFast>): (r: seq<GT>)
    requires |row| == |keys|
    ensures |r| == |keys|
  {
    seq(|keys|, j requires 0 <= j < |keys| => ShareError(keys[j], u, row[j].decryptionShare))
  }

  /** The weighted pairings of a row exceed its weighted commitment by the weighted
      sum of its errors. */
  lemma RowBalance(keys: seq<G2>, u: G1, row: seq<ShareFast>, alphas: seq<F>)
    requires |row| == |keys| == |alphas|
    ensures Dot(WeightedRow(alphas, row), keys) == Add(Dot(alphas, RowErrors(keys, u, row)), Mul(u, Sum(alphas)))
  {
    hide Mul, Add, Sub, Sum;
    var lhs, errs := Products(WeightedRow(alphas, row), keys), Products(alphas, RowErrors(keys, u, row));
    forall j | 0 <= j < |keys| ensures lhs[j] == Add(errs[j], ScaleAll(u, alphas)[j]) {
      ErrorTerm(row[j].decryptionShare, alphas[j], keys[j], u);
    }
    assert lhs == AddAll(errs, ScaleAll(u, alphas));
    SumAddAll(errs, ScaleAll(u, alphas));
    SumScale(u, alphas);
  }

  /** (d a) k = a (d k - u) + u a */
  lemma ErrorTerm(d: F, a: F, k: F, u: F)
    ensures Mul(Mul(d, a), k) == Add(Mul(a, ShareError(k, u, d)), Mul(u, a))
  {
    hide Mul, Sub, Add;
    MulComm(d, a);
    MulAssoc(a, d, k);
    MulSub(a, Mul(d, k), u);
    MulComm(a, u);
    SubThenAdd(Mul(a, Mul(d, k)), Mul(a, u));
  }

  lemma SubThenAdd(a: F, b: F)
    ensures Add(Sub(a, b), b) == a
  {
  }

  function TotalErrors(keys: seq<G2>, cs: seq<Ciphertext>, rows: seq<seq<ShareFast>>, alphas: seq<seq<F>>): (r: seq<GT>)
    requires Rectangular(keys, cs, rows) && |alphas| == |cs|
    ensures |r| == |cs|
  {
    seq(|cs|, i requires 0 <= i < |cs| => Dot(alphas[i], RowErrors(keys, cs[i].commitment, rows[i])))
  }

  /** The batch accepts exactly when the weighted double sum of the errors is zero. */
  lemma BatchIsErrorSum(keys: seq<G2>, cs: seq<Ciphertext>, rows: seq<seq<ShareFast>>, alphas: seq<seq<F>>)
    requires Rectangular(keys, cs, rows) && ScalarsFit(cs, |keys|, alphas)
    ensures BatchAccepts(keys, cs, rows, alphas) <==> Sum(TotalErrors(keys, cs, rows, alphas)) == 0
  {
    hide Mul, Add, Sum, WeightedRow, RowErrors, Dot;
    var errors, us := TotalErrors(keys, cs, rows, alphas), WeightedCommitments(cs, alphas);
    forall i | 0 <= i < |cs| ensures RowPairings(keys, alphas, rows)[i] == Add(errors[i], us[i]) {
      RowBalance(keys, cs[i].commitment, rows[i], alphas[i]);
    }
    assert RowPairings(keys, alphas, rows) == AddAll(errors, us);
    SumAddAll(errors, us);
    AddZero(Sum(us));
    AddComm(Sum(errors), Sum(us));
    AddCancel(Sum(us), Sum(errors), 0);
  }

  /** The scalars that pick out one share. */
  function PickOne(rows: nat, n: nat, i: nat, j: nat): (r: seq<seq<F>>)
    ensures |r| == rows && forall k :: 0 <= k < rows ==> |r[k]| == n
  {
    seq(rows, k => seq(n, l => if k == i && l == j then 1 else 0))
  }

  lemma {:induction false} SumSingle(s: seq<F>, i: nat)
    requires i < |s| && forall k :: 0 <= k < |s| && k != i ==> s[k] == 0
    ensures Sum(s) == s[i]
  {
    var n := |s| - 1;
    AddZero(s[i]);
    if i == n { SumZeros(s[..n]); } else { SumSingle(s[..n], i); }
  }

  lemma PickOneSum(keys: seq<G2>, cs: seq<Ciphertext>, rows: seq<seq<ShareFast>>, i: nat, j: nat)
    requires Rectangular(keys, cs, rows) && i < |cs| && j < |keys|
    ensures Sum(TotalErrors(keys, cs, rows, PickOne(|cs|, |keys|, i, j))) ==
            ShareError(keys[j], cs[i].commitment, rows[i][j].decryptionShare)
  {
    hide Mul, Add, Sum, ShareError;
    var alphas := PickOne(|cs|, |keys|, i, j);
    var errors := TotalErrors(keys, cs, rows, alphas);
    forall k | 0 <= k < |cs| ensures errors[k] == if k == i then RowErrors(keys, cs[i].commitment, rows[i])[j] else 0 {
      var terms := Products(alphas[k], RowErrors(keys, cs[k].commitment, rows[k]));
      forall l | 0 <= l < |keys|
        ensures terms[l] == if k == i && l == j then RowErrors(keys, cs[i].commitment, rows[i])[j] else 0
      {
        MulZeroOne(RowErrors(keys, cs[k].commitment, rows[k])[l]);
      }
      if k == i { SumSingle(terms, j); } else { SumZeros(terms); }
    }
    SumSingle(errors, i);
  }

  ghost predicate NoErrors(keys: seq<G2>, cs: seq<Ciphertext>, rows: seq<seq<ShareFast>>)
    requires Rectangular(keys, cs, rows)
  {
    forall i, j :: 0 <= i < |cs| && 0 <= j < |keys| ==>
      ShareError(keys[j], cs[i].commitment, rows[i][j].decryptionShare) == 0
  }

  /** The batch accepts for every choice of the scalars exactly when every share is
      right for the key in its column. */
  lemma BatchForAllScalars(keys: seq<G2>, cs: seq<Ciphertext>, rows: seq<seq<ShareFast>>)
    requires Rectangular(keys, cs, rows)
    ensures (forall alphas :: ScalarsFit(cs, |keys|, alphas) ==> BatchAccepts(keys, cs, rows, alphas))
            <==> NoErrors(keys, cs, rows)
  {
    hide Mul, Add, Sum, ShareError, BatchAccepts;
    if NoErrors(keys, cs, rows) {
      forall alphas | ScalarsFit(cs, |keys|, alphas) ensures BatchAccepts(keys, cs, rows, alphas) {
        NoErrorsAccepted(keys, cs, rows, alphas);
      }
    }
    if forall alphas :: ScalarsFit(cs, |keys|, alphas) ==> BatchAccepts(keys, cs, rows, alphas) {
      forall i, j | 0 <= i < |cs| && 0 <= j < |keys|
        ensures ShareError(keys[j], cs[i].commitment, rows[i][j].decryptionShare) == 0
      {
        var alphas := PickOne(|cs|, |keys|, i, j);
        assert ScalarsFit(cs, |keys|, alphas);
        BatchIsErrorSum(keys, cs, rows, alphas);
        PickOneSum(keys, cs, rows, i, j);
      }
    }
  }

  lemma NoErrorsAccepted(keys: seq<G2>, cs: seq<Ciphertext>, rows: seq<seq<ShareFast>>, alphas: seq<seq<F>>)
    requires Rectangular(keys, cs, rows) && ScalarsFit(cs, |keys|, alphas) && NoErrors(keys, cs, rows)
    ensures BatchAccepts(keys, cs, rows, alphas)
  {
    hide Mul, Add, Sum, ShareError, BatchAccepts;
    BatchIsErrorSum(keys, cs, rows, alphas);
    forall i | 0 <= i < |cs| ensures TotalErrors(keys, cs, rows, alphas)[i] == 0 {
      var terms := Products(alphas[i], RowErrors(keys, cs[i].commitment, rows[i]));
      forall j | 0 <= j < |terms| ensures terms[j] == 0 { MulZeroOne(alphas[i][j]); }
      SumZeros(terms);
    }
    SumZeros(TotalErrors(keys, cs, rows, alphas));
  }

  /** When every row names the decrypters in the order of the first, the batch accepts
      for every choice of the scalars exactly when every row passes the fast check. */
  lemma BatchExact(pubContexts: seq<PublicContextFast>, cs: seq<Ciphertext>, rows: seq<seq<ShareFast>>)
    requires rows != [] && |rows| == |cs|
    requires forall i :: 0 <= i < |rows| ==> |rows[i]| == |rows[0]| && IndicesInRange(pubContexts, rows[i])
    requires forall i, j :: 0 <= i < |rows| && 0 <= j < |rows[i]| ==>
               rows[i][j].decrypterIndex == rows[0][j].decrypterIndex
    ensures var keys := BlindingKeys(pubContexts, rows[0]);
            (forall alphas :: ScalarsFit(cs, |keys|, alphas) ==> BatchAccepts(keys, cs, rows, alphas))
            <==> forall i :: 0 <= i < |rows| ==> AllSharesRight(pubContexts, cs[i], rows[i])
  {
    hide ShareError, BatchAccepts;
    var keys := BlindingKeys(pubContexts, rows[0]);
    BatchForAllScalars(keys, cs, rows);
    forall i | 0 <= i < |rows|
      ensures RowRight(keys, cs[i], rows[i]) <==> AllSharesRight(pubContexts, cs[i], rows[i])
    {
      SameKeysSameVerdict(pubContexts, cs[i], rows[0], rows[i]);
    }
    assert NoErrors(keys, cs, rows) <==> forall i :: 0 <= i < |rows| ==> RowRight(keys, cs[i], rows[i]);
  }

  ghost predicate RowRight(keys: seq<G2>, c: Ciphertext, row: seq<ShareFast>)
    requires |row| == |keys|
  {
    forall j :: 0 <= j < |keys| ==> ShareError(keys[j], c.commitment, row[j].decryptionShare) == 0
  }

  lemma SameKeysSameVerdict(pubContexts: seq<PublicContextFast>, c: Ciphertext, first: seq<ShareFast>,
                            row: seq<ShareFast>)
    requires |first| == |row| && IndicesInRange(pubContexts, first) && IndicesInRange(pubContexts, row)
    requires forall j :: 0 <= j < |row| ==> row[j].decrypterIndex == first[j].decrypterIndex
    ensures RowRight(BlindingKeys(pubContexts, first), c, row) <==> AllSharesRight(pubContexts, c, row)
  {
    hide ShareError;
    var keys := BlindingKeys(pubContexts, first);
    assert forall j :: 0 <= j < |row| ==> keys[j] == BlindingKeyOf(pubContexts, row[j]);
  }
}
