/** Trees given by parent links, and the totals over their subtrees. */
module Trees {
  import opened Counting

  const NONE: int := -1

  ghost predicate IsRoot(parent: seq<int>, r: nat) {
    r < |parent| && parent[r] == NONE && forall i :: 0 <= i < |parent| && i != r ==> 0 <= parent[i] < |parent|
  }

  /** Ranks grow from child to parent, so that every parent chain ends. */
  ghost predicate Ranked(parent: seq<int>, rank: seq<nat>) {
    |rank| == |parent| && forall i :: 0 <= i < |parent| && 0 <= parent[i] < |parent| ==> rank[i] < rank[parent[i]]
  }

  ghost predicate IsTree(parent: seq<int>, root: nat) {
    IsRoot(parent, root) && exists rank: seq<nat> :: Ranked(parent, rank)
  }

  ghost function Children(parent: seq<int>, b: nat): set<nat> {
    set j: nat | j < |parent| && parent[j] == b
  }

  /** f on the children of b, 0 elsewhere, over the first k nodes. */
  ghost function Shares(parent: seq<int>, f: seq<int>, b: nat, k: nat): seq<int>
    requires k <= |parent| == |f|
  {
    seq(k, j requires 0 <= j < k => if parent[j] == b then f[j] else 0)
  }

  /** Value of a node plus the totals of its children: the total of its subtree. */
  ghost function Total(parent: seq<int>, rank: seq<nat>, init: seq<int>, i: nat): int
    requires Ranked(parent, rank) && |init| == |parent| && i < |parent|
    decreases rank[i]
  {
    init[i] + Sum(seq(|parent|, j requires 0 <= j < |parent| =>
                    if parent[j] == i then Total(parent, rank, init, j) else 0))
  }

  ghost function Totals(parent: seq<int>, rank: seq<nat>, init: seq<int>): (t: seq<int>)
    requires Ranked(parent, rank) && |init| == |parent|
    ensures |t| == |parent|
    ensures forall i :: 0 <= i < |parent| ==> t[i] == Total(parent, rank, init, i)
  {
    seq(|parent|, i requires 0 <= i < |parent| => Total(parent, rank, init, i))
  }

  lemma TotalFromChildren(parent: seq<int>, rank: seq<nat>, init: seq<int>, b: nat)
    requires Ranked(parent, rank) && |init| == |parent| && b < |parent|
    ensures var t := Totals(parent, rank, init);
            t[b] == init[b] + Sum(Shares(parent, t, b, |parent|))
  {
    var t := Totals(parent, rank, init);
    assert Shares(parent, t, b, |parent|) ==
           seq(|parent|, j requires 0 <= j < |parent| =>
             if parent[j] == b then Total(parent, rank, init, j) else 0);
  }

  // ------------------------------------------------------------ the root's total is everybody's

  ghost function ShareSums(parent: seq<int>, f: seq<int>, k: nat): seq<int>
    requires k <= |parent| == |f|
  {
    seq(|parent|, b requires 0 <= b < |parent| => Sum(Shares(parent, f, b, k)))
  }

  lemma SharesGrow(parent: seq<int>, f: seq<int>, b: nat, k: nat)
    requires k < |parent| == |f|
    ensures Sum(Shares(parent, f, b, k + 1)) == Sum(Shares(parent, f, b, k)) + (if parent[k] == b then f[k] else 0)
  {
    var last := if parent[k] == b then f[k] else 0;
    assert Shares(parent, f, b, k + 1) == Shares(parent, f, b, k) + [last];
    SumOfConcat(Shares(parent, f, b, k), [last]);
  }

  lemma {:induction false} SumOfZeros(s: seq<int>)
    requires forall i :: 0 <= i < |s| ==> s[i] == 0
    ensures Sum(s) == 0
  {
    if s != [] {
      SumOfZeros(s[1..]);
    }
  }

  /** Summing over children, parent by parent, is summing over all nodes but the root. */
  lemma {:induction false} SharesCoverNonRoots(parent: seq<int>, f: seq<int>, root: nat, k: nat)
    requires IsRoot(parent, root) && k <= |parent| == |f|
    ensures Sum(ShareSums(parent, f, k)) == Sum(f[..k]) - (if root < k then f[root] else 0)
  {
    if k == 0 {
      SumOfZeros(ShareSums(parent, f, 0));
    } else {
      var before := ShareSums(parent, f, k - 1);
      SharesCoverNonRoots(parent, f, root, k - 1);
      assert f[..k] == f[..k - 1] + [f[k - 1]];
      SumOfConcat(f[..k - 1], [f[k - 1]]);
      forall b: nat | b < |parent|
        ensures ShareSums(parent, f, k)[b] == before[b] + (if parent[k - 1] == b then f[k - 1] else 0)
      {
        SharesGrow(parent, f, b, k - 1);
      }
      if k - 1 == root {
        assert ShareSums(parent, f, k) == before;
      } else {
        var p := parent[k - 1];
        assert ShareSums(parent, f, k) == before[p := before[p] + f[k - 1]];
        SumOfUpdate(before, p, before[p] + f[k - 1]);
      }
    }
  }

  lemma {:induction false} SumOfPointwiseSums(a: seq<int>, b: seq<int>, c: seq<int>)
    requires |a| == |b| == |c| && forall i :: 0 <= i < |a| ==> c[i] == a[i] + b[i]
    ensures Sum(c) == Sum(a) + Sum(b)
  {
    if a != [] {
      SumOfPointwiseSums(a[1..], b[1..], c[1..]);
    }
  }

  /** The root's total is the total of all values. */
  lemma RootTotalIsEverything(parent: seq<int>, rank: seq<nat>, init: seq<int>, root: nat)
    requires Ranked(parent, rank) && IsRoot(parent, root) && |init| == |parent|
    ensures Total(parent, rank, init, root) == Sum(init)
  {
    var t := Totals(parent, rank, init);
    var n := |parent|;
    forall b: nat | b < n
      ensures t[b] == init[b] + ShareSums(parent, t, n)[b]
    {
      TotalFromChildren(parent, rank, init, b);
    }
    SumOfPointwiseSums(init, ShareSums(parent, t, n), t);
    SharesCoverNonRoots(parent, t, root, n);
    assert t[..n] == t;
  }
}
