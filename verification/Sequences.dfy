/** Sequences without repeated entries, and rearranged sequences. */
module Sequences {

  predicate Distinct<T(==)>(s: seq<T>) {
    forall i, j :: 0 <= i < j < |s| ==> s[i] != s[j]
  }

  lemma DistinctTail<T>(s: seq<T>)
    requires s != [] && Distinct(s)
    ensures Distinct(s[1..])
    ensures forall i :: 1 <= i < |s| ==> s[i] != s[0]
  {
    var t := s[1..];
    forall i, j | 0 <= i < j < |t| ensures t[i] != t[j] {
      assert s[i + 1] != s[j + 1];
    }
  }

  lemma DistinctCons<T>(s: seq<T>)
    requires s != []
    ensures Distinct(s) <==> s[0] !in s[1..] && Distinct(s[1..])
  {
    if s[0] !in s[1..] && Distinct(s[1..]) {
      forall i, j | 0 <= i < j < |s| ensures s[i] != s[j] {
        assert s[j] == s[1..][j - 1];
        if i > 0 { assert s[i] == s[1..][i - 1]; }
      }
    }
    if Distinct(s) {
      DistinctTail(s);
    }
  }

  ghost function SetOf<T>(s: seq<T>): set<T> {
    set x | x in s
  }

  /** A sequence has as many different entries as entries exactly without repeats. */
  lemma {:induction false} DistinctCount<T>(s: seq<T>)
    ensures |SetOf(s)| <= |s|
    ensures |SetOf(s)| == |s| <==> Distinct(s)
  {
    if s == [] {
      assert SetOf(s) == {};
    } else {
      DistinctCount(s[1..]);
      DistinctCons(s);
      assert SetOf(s) == {s[0]} + SetOf(s[1..]);
      if s[0] in s[1..] {
        assert SetOf(s) == SetOf(s[1..]);
      } else {
        assert |SetOf(s)| == 1 + |SetOf(s[1..])|;
      }
    }
  }

  lemma DistinctSome<T>(s: seq<T>)
    ensures |SetOf(s)| == 0 <==> s == []
  {
    if s != [] { assert s[0] in SetOf(s); }
  }

  lemma DistinctReordered<T>(s: seq<T>, t: seq<T>)
    requires multiset(s) == multiset(t)
    ensures Distinct(s) <==> Distinct(t)
    ensures SetOf(s) == SetOf(t)
  {
    DistinctCount(s);
    DistinctCount(t);
    assert |s| == |multiset(s)| == |multiset(t)| == |t|;
    SameEntries(s, t);
    assert SetOf(s) == SetOf(t);
  }

  lemma SameEntries<T>(s: seq<T>, t: seq<T>)
    requires multiset(s) == multiset(t)
    ensures forall x :: x in s <==> x in t
  {
    forall x ensures x in s <==> x in t {
      assert x in s <==> x in multiset(s);
      assert x in t <==> x in multiset(t);
    }
  }

  /** Where the last entry of s sits in a rearrangement t of s. */
  lemma FindEqual<T>(s: seq<T>, t: seq<T>) returns (k: nat)
    requires s != [] && multiset(s) == multiset(t)
    ensures k < |t| && t[k] == s[|s| - 1]
    ensures multiset(s[..|s| - 1]) == multiset(t[..k] + t[k + 1..])
  {
    SameEntries(s, t);
    assert s[|s| - 1] in t;
    k :| 0 <= k < |t| && t[k] == s[|s| - 1];
    RemoveOne(s, |s| - 1);
    RemoveOne(t, k);
    assert s[..|s| - 1] + s[|s|..] == s[..|s| - 1];
  }

  lemma RemoveOne<T>(t: seq<T>, k: nat)
    requires k < |t|
    ensures multiset(t[..k] + t[k + 1..]) == multiset(t) - multiset{t[k]}
  {
    assert t == t[..k] + [t[k]] + t[k + 1..];
  }

  function Map<T, U>(s: seq<T>, f: T -> U): (r: seq<U>)
    ensures |r| == |s|
  {
    seq(|s|, i requires 0 <= i < |s| => f(s[i]))
  }
}
