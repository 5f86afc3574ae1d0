/** Sizes of finite index sets, sequences without repetition, and sums over sequences. */
module Counting {

  /** The indices 0..n-1. */
  ghost function Range(n: nat): (s: set<nat>)
    ensures |s| == n
    ensures forall g: nat :: g in s <==> g < n
  {
    if n == 0 then {} else Range(n - 1) + {n - 1}
  }

  ghost predicate Distinct<T>(s: seq<T>) {
    forall i, j :: 0 <= i < j < |s| ==> s[i] != s[j]
  }

  lemma SubsetIsNoLarger<T>(a: set<T>, b: set<T>)
    requires a <= b
    ensures |a| <= |b|
    ensures |a| == |b| ==> a == b
  {
    assert b == a + (b - a);
  }

  function Sum(s: seq<int>): int {
    if s == [] then 0 else s[0] + Sum(s[1..])
  }

  lemma {:induction false} SumOfConcat(a: seq<int>, b: seq<int>)
    ensures Sum(a + b) == Sum(a) + Sum(b)
  {
    if a == [] {
      assert a + b == b;
    } else {
      SumOfConcat(a[1..], b);
      assert (a + b)[1..] == a[1..] + b;
    }
  }

  lemma SumOfUpdate(s: seq<int>, i: nat, v: int)
    requires i < |s|
    ensures Sum(s[i := v]) == Sum(s) - s[i] + v
  {
    assert s == s[..i] + [s[i]] + s[i + 1..];
    assert s[i := v] == s[..i] + [v] + s[i + 1..];
    SumOfConcat(s[..i] + [s[i]], s[i + 1..]);
    SumOfConcat(s[..i] + [v], s[i + 1..]);
    SumOfConcat(s[..i], [s[i]]);
    SumOfConcat(s[..i], [v]);
  }

  lemma {:induction false} SumOfNaturals(s: seq<int>)
    requires forall i :: 0 <= i < |s| ==> s[i] >= 0
    ensures Sum(s) >= 0
  {
    if s != [] {
      SumOfNaturals(s[1..]);
    }
  }
}
