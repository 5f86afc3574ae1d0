/** The random-tree generator, and the reader that turns its file into parent links and child counts. */
module GenTree {
  import opened Counting
  import opened Graphs
  import opened Shuffle
  import opened Trees
  import opened TreeShapes

  /** t lists the nodes so that node t[0] is its own parent and every later node's parent comes before it. */
  ghost predicate Grown(P: seq<nat>, t: seq<nat>, up: seq<nat>, upto: nat) {
    && |P| == |t| && IsPermutation(t, |t|) && upto < |t| && |up| == upto + 1
    && P[t[0]] == t[0]
    && forall c :: 1 <= c <= upto ==> up[c] < c && P[t[c]] == t[up[c]]
  }

  /** Attaching the next t nodes to one parent: the inner loop of the growth. */
  method Attach(PERM: array<nat>, P: array<nat>, nextchild: nat, nextparent: nat, t: nat, ghost up: seq<nat>)
    returns (last: nat, ghost up': seq<nat>)
    requires PERM != P && PERM.Length == P.Length && Grown(P[..], PERM[..], up, nextchild)
    requires nextchild + t < P.Length && nextparent <= nextchild
    modifies P
    ensures last == nextchild + t && Grown(P[..], PERM[..], up', last)
    ensures up' == up + Copies(nextparent, t)
  {
    last, up' := nextchild, up;
    var i := 0;
    while i < t
      invariant 0 <= i <= t && last == nextchild + i
      invariant PERM[..] == old(PERM[..]) && Grown(P[..], PERM[..], up', last)
      invariant up' == up + Copies(nextparent, i)
    {
      last := last + 1;
      P[PERM[last]] := PERM[nextparent];
      up' := up' + [nextparent];
      i := i + 1;
    }
  }

  /** The random number of children for the next parent. */
  method DrawChildren(n: nat, nextchild: nat, nextparent: nat, remaining: nat, r: nat) returns (t: nat)
    requires remaining > 0 && nextchild + 1 + remaining == n
    ensures t == NewChildren(n, nextchild + 1, nextparent, r)
  {
    if remaining > 5 {
      t := if nextchild == nextparent then 1 + r % 5 else r % 5;
    } else {
      t := if nextchild == nextparent then 1 + r % remaining else r % remaining;
    }
  }

  /**
   For any random numbers the loop ends, every node but one has got exactly one parent, listed before it,
   and the tree is one of those shapes.
   */
  method Generate(n: nat, draws: seq<nat>, choices: nat -> nat) returns (P: array<nat>, ghost up: seq<nat>)
    requires n >= 1 && |draws| == n
    ensures fresh(P) && P.Length == n && Grown(P[..], Shuffled(n, draws, n), up, n - 1)
    ensures exists q :: up == Grow(n, choices, q)
    ensures Listed(up) && Narrow(up) && LastIsAlone(up)
  {
    var PERM := Permute(n, draws);
    ghost var t := PERM[..];
    P := new nat[n];
    P[PERM[0]] := PERM[0];
    up := [0];
    var nextchild, nextparent, remaining := 0, 0, n - 1;
    while remaining > 0
      invariant 0 <= remaining <= n - 1
      invariant nextparent <= nextchild == n - 1 - remaining
      invariant PERM != P && PERM[..] == t && P.Length == n
      invariant Grown(P[..], t, up, nextchild)
      invariant up == Grow(n, choices, nextparent)
      decreases n - nextparent
    {
      var k := DrawChildren(n, nextchild, nextparent, remaining, choices(nextparent));
      remaining := remaining - k;
      nextchild, up := Attach(PERM, P, nextchild, nextparent, k, up);
      nextparent := nextparent + 1;
    }
    GrowsOnlyShapes(n, choices, nextparent);
  }

  // ------------------------------------------------------------ reading it back

  /** The file: one (child, parent) pair per node. */
  function Lines(P: seq<nat>): seq<(nat, nat)> {
    seq(|P|, i requires 0 <= i < |P| => (i, P[i]))
  }

  /** Parent link of each node as the reader stores it: none for the node that is its own parent. */
  ghost function Links(P: seq<nat>): seq<int> {
    seq(|P|, i requires 0 <= i < |P| => if P[i] == i then NONE else P[i])
  }

  ghost predicate FreshChildren(lines: seq<(nat, nat)>, n: nat) {
    && (forall k :: 0 <= k < |lines| ==> lines[k].0 < n && lines[k].1 < n)
    && (forall k, l :: 0 <= k < l < |lines| ==> lines[k].0 != lines[l].0)
  }

  /** The first k lines are in P, and nothing else. */
  ghost predicate Linked(lines: seq<(nat, nat)>, k: nat, P: seq<int>) {
    && k <= |lines|
    && (forall l :: 0 <= l < k ==>
          lines[l].0 < |P| && P[lines[l].0] == if lines[l].0 == lines[l].1 then NONE else lines[l].1)
    && (forall i: nat :: i < |P| && Unseen(lines, k, i) ==> P[i] == NONE)
  }

  ghost predicate Unseen(lines: seq<(nat, nat)>, k: nat, i: nat)
    requires k <= |lines|
  {
    forall l :: 0 <= l < k ==> lines[l].0 != i
  }

  /** The link after line k, when the first k are in P. */
  ghost function Added(line: (nat, nat), P: seq<int>): seq<int>
    requires line.0 < |P|
  {
    if line.0 == line.1 then P else P[line.0 := line.1]
  }

  lemma LineLinked(lines: seq<(nat, nat)>, k: nat, P: seq<int>, P': seq<int>)
    requires 0 < k <= |lines| && Linked(lines, k - 1, P) && FreshChildren(lines, |P|)
    requires P' == Added(lines[k - 1], P)
    ensures P[lines[k - 1].0] == NONE
    ensures Linked(lines, k, P')
  {
    assert Unseen(lines, k - 1, lines[k - 1].0);
    assert forall i: nat :: Unseen(lines, k, i) ==> Unseen(lines, k - 1, i) && lines[k - 1].0 != i;
  }

  ghost predicate Counted(P: seq<int>, counts: seq<nat>) {
    |counts| == |P| && forall b: nat :: b < |P| ==> counts[b] == |Children(P, b)|
  }

  /** P, numOfChildren and root once k lines have been read. */
  datatype Reading = Reading(P: seq<int>, counts: seq<nat>, root: int)

  ghost function ReadSoFar(lines: seq<(nat, nat)>, n: nat, k: nat): (r: Reading)
    requires FreshChildren(lines, n) && k <= |lines|
    ensures |r.P| == |r.counts| == n
  {
    if k == 0 then Reading(seq(n, i => NONE), seq(n, i => 0), NONE)
    else
      var r, child, parent := ReadSoFar(lines, n, k - 1), lines[k - 1].0, lines[k - 1].1;
      if child == parent then r.(P := Added(lines[k - 1], r.P), root := child)
      else Reading(Added(lines[k - 1], r.P), r.counts[parent := r.counts[parent] + 1], r.root)
  }

  /** The self-parented node that was read, if any. */
  ghost predicate Rooted(lines: seq<(nat, nat)>, k: nat, root: int)
    requires k <= |lines|
  {
    if root == NONE then forall l :: 0 <= l < k ==> lines[l].0 != lines[l].1
    else exists l :: 0 <= l < k && lines[l] == (root, root)
  }

  /** The links are those of the lines read, and no others. */
  lemma {:induction false} LinksAreThoseRead(lines: seq<(nat, nat)>, n: nat, k: nat)
    requires FreshChildren(lines, n) && k <= |lines|
    ensures Linked(lines, k, ReadSoFar(lines, n, k).P)
  {
    if k > 0 {
      LinksAreThoseRead(lines, n, k - 1);
      LineLinked(lines, k, ReadSoFar(lines, n, k - 1).P, ReadSoFar(lines, n, k).P);
    }
  }

  /** numOfChildren counts the children that the links end up with. */
  lemma {:induction false} ChildrenAreCounted(lines: seq<(nat, nat)>, n: nat, k: nat)
    requires FreshChildren(lines, n) && k <= |lines|
    ensures Counted(ReadSoFar(lines, n, k).P, ReadSoFar(lines, n, k).counts)
  {
    if k == 0 {
      NobodyCounted(n);
    } else {
      ChildrenAreCounted(lines, n, k - 1);
      LinksAreThoseRead(lines, n, k - 1);
      var r0 := ReadSoFar(lines, n, k - 1);
      LineLinked(lines, k, r0.P, ReadSoFar(lines, n, k).P);
      if lines[k - 1].0 != lines[k - 1].1 {
        ChildCounted(r0.P, r0.counts, lines[k - 1].0, lines[k - 1].1);
      }
    }
  }

  lemma NobodyCounted(n: nat)
    ensures Counted(seq(n, i => NONE), seq(n, i => 0))
  {
    var P: seq<int> := seq(n, i => NONE);
    assert forall b: nat :: b < n ==> Children(P, b) == {};
  }

  /** The root is the node read as its own parent. */
  lemma {:induction false} RootIsSelfParented(lines: seq<(nat, nat)>, n: nat, k: nat)
    requires FreshChildren(lines, n) && k <= |lines|
    ensures Rooted(lines, k, ReadSoFar(lines, n, k).root)
  {
    if k > 0 {
      RootIsSelfParented(lines, n, k - 1);
      var root := ReadSoFar(lines, n, k).root;
      if lines[k - 1].0 == lines[k - 1].1 {
        assert lines[k - 1] == (root, root);
      }
    }
  }

  method ReadTree(n: nat, lines: seq<(nat, nat)>) returns (P: array<int>, numOfChildren: array<nat>, root: int)
    requires FreshChildren(lines, n)
    ensures fresh(P) && fresh(numOfChildren)
    ensures Reading(P[..], numOfChildren[..], root) == ReadSoFar(lines, n, |lines|)
  {
    P := new int[n](i => NONE);
    numOfChildren := new nat[n](i => 0);
    root := NONE;
    var k := 0;
    while k < |lines|
      invariant 0 <= k <= |lines| && P.Length == n && numOfChildren.Length == n
      invariant Reading(P[..], numOfChildren[..], root) == ReadSoFar(lines, n, k)
    {
      var (child, parent) := lines[k];
      if child == parent {
        root := child;
      } else {
        P[child] := parent;
        numOfChildren[parent] := numOfChildren[parent] + 1;
      }
      k := k + 1;
    }
  }

  lemma ChildAdded(before: seq<int>, child: nat, parent: nat, b: nat)
    requires child < |before| && before[child] == NONE
    ensures Children(before[child := parent], b) == Children(before, b) + (if b == parent then {child} else {})
    ensures child !in Children(before, b)
  {
  }

  lemma ChildCounted(before: seq<int>, counts: seq<nat>, child: nat, parent: nat)
    requires Counted(before, counts) && child < |before| && parent < |before| && before[child] == NONE
    ensures Counted(before[child := parent], counts[parent := counts[parent] + 1])
  {
    forall b: nat | b < |before|
      ensures Children(before[child := parent], b) == Children(before, b) + (if b == parent then {child} else {})
      ensures child !in Children(before, b)
    {
      ChildAdded(before, child, parent, b);
    }
  }

  /** What is written line by line is read back, with every child counted at its parent. */
  lemma ReadBack(P: seq<nat>)
    requires forall i :: 0 <= i < |P| ==> P[i] < |P|
    ensures FreshChildren(Lines(P), |P|)
    ensures var r := ReadSoFar(Lines(P), |P|, |P|);
            r.P == Links(P) && Counted(Links(P), r.counts)
  {
    var lines := Lines(P);
    LinksAreThoseRead(lines, |P|, |P|);
    ChildrenAreCounted(lines, |P|, |P|);
    forall i | 0 <= i < |P|
      ensures ReadSoFar(lines, |P|, |P|).P[i] == Links(P)[i]
    {
      assert lines[i] == (i, P[i]);
    }
  }

  /** The root read back is the node the generator began with. */
  lemma RootIsReadBack(P: seq<nat>, t: seq<nat>, up: seq<nat>)
    requires |P| >= 1 && Grown(P, t, up, |P| - 1)
    ensures forall i :: 0 <= i < |P| ==> P[i] < |P|
    ensures ReadSoFar(Lines(P), |P|, |P|).root == t[0]
  {
    OneSelfParent(P, t, up);
    var lines := Lines(P);
    RootIsSelfParented(lines, |P|, |P|);
    assert lines[t[0]] == (t[0], t[0]);
  }

  lemma OneSelfParent(P: seq<nat>, t: seq<nat>, up: seq<nat>)
    requires |P| >= 1 && Grown(P, t, up, |P| - 1)
    ensures forall v :: 0 <= v < |P| ==> P[v] < |P| && (P[v] == v <==> v == t[0])
  {
    forall v | 0 <= v < |P|
      ensures P[v] < |P| && (P[v] == v <==> v == t[0])
    {
      PermutationCovers(t, |P|, v);
      var c := Position(t, v);
      assert c > 0 ==> P[v] == t[up[c]] && up[c] < c;
    }
  }

  /** A generated tree, once read back, meets what the summing threads assume. */
  lemma GeneratedIsTree(P: seq<nat>, t: seq<nat>, up: seq<nat>)
    requires |P| >= 1 && Grown(P, t, up, |P| - 1)
    ensures IsTree(Links(P), t[0])
  {
    var n := |P|;
    var parent := Links(P);
    forall v: nat | v < n
      ensures v in t
    {
      PermutationCovers(t, n, v);
    }
    var rank: seq<nat> := seq(n, v requires 0 <= v < n => assert v in t; n - Position(t, v));
    forall v: nat | v < n && v != t[0]
      ensures 0 <= parent[v] < n && rank[v] < rank[parent[v]]
    {
      var c := Position(t, v);
      assert up[c] < c && P[v] == t[up[c]];
      assert Position(t, P[v]) == up[c];
    }
    assert Ranked(parent, rank);
  }
}
