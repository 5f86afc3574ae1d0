/** The random shuffle that both generators start with. */
module Shuffle {
  import opened Counting
  import opened Graphs

  lemma SwapKeepsPermutation(t: seq<nat>, n: nat, i: nat, j: nat)
    requires IsPermutation(t, n) && i < n && j < n
    ensures IsPermutation(t[i := t[j]][j := t[i]], n)
  {
  }

  /** Round i swaps cell i with one from there on. */
  ghost function Round(t: seq<nat>, n: nat, i: nat, draw: nat): (t': seq<nat>)
    requires IsPermutation(t, n) && i < n
    ensures IsPermutation(t', n)
  {
    var j := i + draw % (n - i);
    SwapKeepsPermutation(t, n, i, j);
    t[i := t[j]][j := t[i]]
  }

  /** PERM after k rounds, when round i draws the number draws[i]. */
  ghost function Shuffled(n: nat, draws: seq<nat>, k: nat): (t: seq<nat>)
    requires |draws| == n && k <= n
    ensures IsPermutation(t, n)
  {
    if k == 0 then seq(n, i requires 0 <= i < n => i)
    else Round(Shuffled(n, draws, k - 1), n, k - 1, draws[k - 1])
  }

  /** Whatever is drawn, PERM is a permutation of 0..n-1. */
  method Permute(n: nat, draws: seq<nat>) returns (PERM: array<nat>)
    requires |draws| == n
    ensures fresh(PERM) && PERM[..] == Shuffled(n, draws, n) && IsPermutation(PERM[..], n)
  {
    PERM := new nat[n](i => i);
    var i := 0;
    while i < n
      invariant 0 <= i <= n && PERM.Length == n
      invariant PERM[..] == Shuffled(n, draws, i)
    {
      var j := i + draws[i] % (n - i);
      ghost var before := PERM[..];
      PERM[i], PERM[j] := PERM[j], PERM[i];
      assert PERM[..] == Round(before, n, i, draws[i]);
      i := i + 1;
    }
  }

  // ------------------------------------------------------------ every permutation is drawn in exactly one way

  /** Each draw already reduced to the numbers that make a difference. */
  ghost predicate Reduced(n: nat, draws: seq<nat>) {
    |draws| == n && forall i :: 0 <= i < n ==> draws[i] < n - i
  }

  lemma Remainder(d: nat, m: nat)
    requires d < m
    ensures d % m == d
  {
  }

  lemma RoundSettles(n: nat, draws: seq<nat>, k: nat)
    requires Reduced(n, draws) && k < n
    ensures var t, t' := Shuffled(n, draws, k), Shuffled(n, draws, k + 1);
            t'[..k] == t[..k] && t'[k] == t[k + draws[k]]
  {
    Remainder(draws[k], n - k);
  }

  /** A cell does not change after its own round. */
  lemma {:induction false} SettledPrefix(n: nat, draws: seq<nat>, k: nat, l: nat)
    requires Reduced(n, draws) && k <= l <= n
    ensures Shuffled(n, draws, l)[..k] == Shuffled(n, draws, k)[..k]
    decreases l
  {
    if k < l {
      SettledPrefix(n, draws, k, l - 1);
      RoundSettles(n, draws, l - 1);
      var t, t' := Shuffled(n, draws, l - 1), Shuffled(n, draws, l);
      assert t'[..l - 1][..k] == t'[..k] && t[..l - 1][..k] == t[..k];
    }
  }

  /** Later draws make no difference to the first k rounds. */
  lemma {:induction false} SameDrawsSameCells(n: nat, a: seq<nat>, b: seq<nat>, k: nat)
    requires |a| == n && |b| == n && k <= n && a[..k] == b[..k]
    ensures Shuffled(n, a, k) == Shuffled(n, b, k)
  {
    if k > 0 {
      assert a[..k][..k - 1] == a[..k - 1] && b[..k][..k - 1] == b[..k - 1];
      assert a[k - 1] == a[..k][k - 1] == b[..k][k - 1] == b[k - 1];
      SameDrawsSameCells(n, a, b, k - 1);
    }
  }

  /** Cell k ends with what its own round puts there. */
  lemma CellSettles(n: nat, draws: seq<nat>, k: nat)
    requires Reduced(n, draws) && k < n
    ensures Shuffled(n, draws, n)[k] == Shuffled(n, draws, k)[k + draws[k]]
  {
    RoundSettles(n, draws, k);
    SettledPrefix(n, draws, k + 1, n);
    assert Shuffled(n, draws, n)[..k + 1][k] == Shuffled(n, draws, k + 1)[..k + 1][k];
  }

  lemma NextCellIsAhead(s: seq<nat>, n: nat, k: nat, t: seq<nat>) returns (j: nat)
    requires IsPermutation(s, n) && IsPermutation(t, n) && k < n && t[..k] == s[..k]
    ensures k <= j < n && t[j] == s[k]
  {
    PermutationCovers(t, n, s[k]);
    assert forall i :: 0 <= i < k ==> t[i] == t[..k][i] == s[i];
    j :| 0 <= j < n && t[j] == s[k];
  }

  lemma OneCellMore(s: seq<nat>, n: nat, draws: seq<nat>, k: nat)
    requires Reduced(n, draws) && k < n && |s| == n
    requires Shuffled(n, draws, k)[..k] == s[..k] && Shuffled(n, draws, k)[k + draws[k]] == s[k]
    ensures Shuffled(n, draws, k + 1)[..k + 1] == s[..k + 1]
  {
    RoundSettles(n, draws, k);
    var t' := Shuffled(n, draws, k + 1);
    assert t'[..k + 1] == t'[..k] + [t'[k]];
    assert s[..k + 1] == s[..k] + [s[k]];
  }

  lemma {:induction false} DrawnUpTo(s: seq<nat>, n: nat, k: nat) returns (draws: seq<nat>)
    requires IsPermutation(s, n) && k <= n
    ensures Reduced(n, draws) && Shuffled(n, draws, k)[..k] == s[..k]
  {
    if k == 0 {
      draws := seq(n, i => 0);
    } else {
      var before := DrawnUpTo(s, n, k - 1);
      var j := NextCellIsAhead(s, n, k - 1, Shuffled(n, before, k - 1));
      draws := before[k - 1 := j - (k - 1)];
      assert draws[..k - 1] == before[..k - 1];
      SameDrawsSameCells(n, draws, before, k - 1);
      OneCellMore(s, n, draws, k - 1);
    }
  }

  lemma SameCellSameDraw(n: nat, a: seq<nat>, b: seq<nat>, k: nat)
    requires Reduced(n, a) && Reduced(n, b) && k < n && a[..k] == b[..k]
    requires Shuffled(n, a, n)[k] == Shuffled(n, b, n)[k]
    ensures a[k] == b[k]
  {
    SameDrawsSameCells(n, a, b, k);
    CellSettles(n, a, k);
    CellSettles(n, b, k);
  }

  lemma {:induction false} DrawsAgreeUpTo(n: nat, a: seq<nat>, b: seq<nat>, k: nat)
    requires Reduced(n, a) && Reduced(n, b) && k <= n && Shuffled(n, a, n) == Shuffled(n, b, n)
    ensures a[..k] == b[..k]
  {
    if k > 0 {
      DrawsAgreeUpTo(n, a, b, k - 1);
      SameCellSameDraw(n, a, b, k - 1);
      assert a[..k] == a[..k - 1] + [a[k - 1]] && b[..k] == b[..k - 1] + [b[k - 1]];
    }
  }

  /** The shuffle is fair to all permutations: each comes from exactly one list of reduced draws. */
  lemma EveryPermutationIsDrawnOnce(s: seq<nat>, n: nat)
    requires IsPermutation(s, n)
    ensures exists draws :: Reduced(n, draws) && Shuffled(n, draws, n) == s
    ensures forall a, b :: Reduced(n, a) && Reduced(n, b) && Shuffled(n, a, n) == s && Shuffled(n, b, n) == s ==> a == b
  {
    var draws := DrawnUpTo(s, n, n);
    assert Shuffled(n, draws, n)[..n] == Shuffled(n, draws, n) && s[..n] == s;
    forall a, b | Reduced(n, a) && Reduced(n, b) && Shuffled(n, a, n) == s && Shuffled(n, b, n) == s
      ensures a == b
    {
      DrawsAgreeUpTo(n, a, b, n);
      assert a[..n] == a && b[..n] == b;
    }
  }
}
