/** Directed graphs on 0..n-1, and the two reasons a graph can or cannot be sorted. */
module Graphs {
  import opened Counting

  datatype Graph = Graph(n: nat, adj: seq<seq<bool>>)

  ghost predicate IsGraph(g: Graph) {
    |g.adj| == g.n && forall u :: 0 <= u < g.n ==> |g.adj[u]| == g.n
  }

  predicate Edge(g: Graph, u: nat, v: nat) {
    u < |g.adj| && v < |g.adj[u]| && g.adj[u][v]
  }

  ghost predicate RankedOn(g: Graph, s: set<nat>, rank: map<nat, nat>) {
    s <= rank.Keys && forall u, v :: u in s && v in s && Edge(g, u, v) ==> rank[u] < rank[v]
  }

  ghost predicate Acyclic(g: Graph) {
    exists rank: map<nat, nat> :: RankedOn(g, Range(g.n), rank)
  }

  ghost predicate HeldUp(g: Graph, c: set<nat>, v: nat) {
    exists u :: u in c && Edge(g, u, v)
  }

  /** A nonempty set in which every vertex waits for another of the set: a cycle and what it may hold up. */
  ghost predicate Trap(g: Graph, c: set<nat>) {
    c != {} && c <= Range(g.n) && forall v {:trigger HeldUp(g, c, v)} :: v in c ==> HeldUp(g, c, v)
  }

  /** v before everything else. */
  ghost function RankedFirst(rest: map<nat, nat>, v: nat): map<nat, nat> {
    (map u | u in rest :: rest[u] + 1)[v := 0]
  }

  lemma RankedFirstIsRanked(g: Graph, s: set<nat>, v: nat, rest: map<nat, nat>)
    requires v in s && RankedOn(g, s - {v}, rest) && forall u :: u in s ==> !Edge(g, u, v)
    ensures RankedOn(g, s, RankedFirst(rest, v))
  {
  }

  /** Any part of a graph can be ranked or contains a trap. */
  lemma {:induction false} RankedOrTrapped(g: Graph, s: set<nat>) returns (rank: map<nat, nat>, c: set<nat>)
    requires s <= Range(g.n)
    ensures RankedOn(g, s, rank) || (Trap(g, c) && c <= s)
    decreases |s|
  {
    rank, c := map[], {};
    if s != {} {
      if v :| v in s && forall u :: u in s ==> !Edge(g, u, v) {
        var rest;
        rest, c := RankedOrTrapped(g, s - {v});
        rank := RankedFirst(rest, v);
        if RankedOn(g, s - {v}, rest) {
          RankedFirstIsRanked(g, s, v, rest);
        }
      } else {
        c := s;
      }
    }
  }

  lemma {:induction false} TrapHasNoRank(g: Graph, c: set<nat>, rank: map<nat, nat>, v: nat)
    requires Trap(g, c) && RankedOn(g, Range(g.n), rank) && v in c
    ensures false
    decreases rank[v]
  {
    assert HeldUp(g, c, v);
    var u :| u in c && Edge(g, u, v);
    TrapHasNoRank(g, c, rank, u);
  }

  /** A graph is acyclic exactly when it has no trap. */
  lemma AcyclicMeansNoTrap(g: Graph)
    ensures Acyclic(g) <==> !exists c :: Trap(g, c)
  {
    var rank, c := RankedOrTrapped(g, Range(g.n));
    if Acyclic(g) {
      var r: map<nat, nat> :| RankedOn(g, Range(g.n), r);
      forall d
        ensures !Trap(g, d)
      {
        if Trap(g, d) {
          var v :| v in d;
          TrapHasNoRank(g, d, r, v);
        }
      }
    }
  }

  // ------------------------------------------------------------ listings

  /** Every vertex exactly once. */
  ghost predicate IsPermutation(t: seq<nat>, n: nat) {
    |t| == n && Distinct(t) && forall i :: 0 <= i < |t| ==> t[i] < n
  }

  ghost function Elements(t: seq<nat>): set<nat> {
    set x | x in t
  }

  lemma {:induction false} DistinctSize(t: seq<nat>)
    requires Distinct(t)
    ensures |Elements(t)| == |t|
  {
    if t == [] {
    } else {
      DistinctSize(t[1..]);
      assert t == [t[0]] + t[1..];
      assert forall i :: 0 <= i < |t[1..]| ==> t[1..][i] == t[i + 1];
      assert t[0] !in t[1..];
      assert Elements(t) == {t[0]} + Elements(t[1..]);
    }
  }

  lemma PermutationCovers(t: seq<nat>, n: nat, v: nat)
    requires IsPermutation(t, n) && v < n
    ensures v in t
  {
    DistinctSize(t);
    assert Elements(t) <= Range(n);
    SubsetIsNoLarger(Elements(t), Range(n));
    assert v in Range(n);
  }

  ghost function Position(t: seq<nat>, u: nat): (p: nat)
    requires u in t
    ensures p < |t| && t[p] == u
  {
    var p :| 0 <= p < |t| && t[p] == u;
    p
  }

  /** A permutation in which every edge goes forward. */
  ghost predicate IsTopological(g: Graph, t: seq<nat>) {
    IsPermutation(t, g.n) && forall a, b :: 0 <= a < |t| && 0 <= b < |t| && Edge(g, t[a], t[b]) ==> a < b
  }

  // ------------------------------------------------------------ closed walks

  /** At least one edge, each from one vertex to the next. */
  ghost predicate IsWalk(g: Graph, w: seq<nat>) {
    && |w| >= 2
    && (forall i :: 0 <= i < |w| ==> w[i] < g.n)
    && forall i :: 0 <= i < |w| - 1 ==> Edge(g, w[i], w[i + 1])
  }

  ghost predicate IsClosedWalk(g: Graph, w: seq<nat>) {
    IsWalk(g, w) && w[0] == w[|w| - 1]
  }

  lemma {:induction false} RanksGrowAlongWalk(g: Graph, rank: map<nat, nat>, w: seq<nat>, i: nat)
    requires IsWalk(g, w) && RankedOn(g, Range(g.n), rank) && 0 < i < |w|
    ensures w[0] in rank && w[i] in rank && rank[w[0]] < rank[w[i]]
  {
    assert w[i - 1] in Range(g.n) && w[i] in Range(g.n);
    assert Edge(g, w[i - 1], w[i - 1 + 1]);
    if i > 1 {
      RanksGrowAlongWalk(g, rank, w, i - 1);
    }
  }

  /** In a trap one can walk backwards for any number of steps. */
  lemma {:induction false} WalkBackInTrap(g: Graph, c: set<nat>, v: nat, n: nat) returns (w: seq<nat>)
    requires Trap(g, c) && v in c
    ensures |w| == n + 1 && w[n] == v && forall i :: 0 <= i < |w| ==> w[i] in c
    ensures forall i :: 0 <= i < |w| - 1 ==> Edge(g, w[i], w[i + 1])
    decreases n
  {
    if n == 0 {
      w := [v];
    } else {
      assert HeldUp(g, c, v);
      var u :| u in c && Edge(g, u, v);
      var back := WalkBackInTrap(g, c, u, n - 1);
      w := back + [v];
    }
  }

  /** A walk longer than its set of vertices comes back to one of them. */
  lemma LongWalkRepeats(w: seq<nat>, c: set<nat>) returns (i: nat, j: nat)
    requires |w| > |c| && forall k :: 0 <= k < |w| ==> w[k] in c
    ensures i < j < |w| && w[i] == w[j]
  {
    if Distinct(w) {
      DistinctSize(w);
      SubsetIsNoLarger(Elements(w), c);
    }
    i, j :| 0 <= i < j < |w| && w[i] == w[j];
  }

  lemma ClosedWalkInTrap(g: Graph, c: set<nat>) returns (w: seq<nat>)
    requires Trap(g, c)
    ensures IsClosedWalk(g, w)
  {
    var v :| v in c;
    var long := WalkBackInTrap(g, c, v, |c|);
    var i, j := LongWalkRepeats(long, c);
    w := long[i..j + 1];
    forall k | 0 <= k < |w|
      ensures w[k] < g.n
    {
      assert w[k] == long[i + k] && long[i + k] in Range(g.n);
    }
    forall k | 0 <= k < |w| - 1
      ensures Edge(g, w[k], w[k + 1])
    {
      assert w[k] == long[i + k] && w[k + 1] == long[i + k + 1];
    }
  }

  /** Acyclic means what it says: there is no closed walk. */
  lemma AcyclicExactlyWithoutClosedWalks(g: Graph)
    ensures Acyclic(g) <==> !exists w :: IsClosedWalk(g, w)
  {
    if Acyclic(g) {
      var rank: map<nat, nat> :| RankedOn(g, Range(g.n), rank);
      forall w
        ensures !IsClosedWalk(g, w)
      {
        if IsWalk(g, w) {
          RanksGrowAlongWalk(g, rank, w, |w| - 1);
        }
      }
    } else {
      AcyclicMeansNoTrap(g);
      var c :| Trap(g, c);
      var w := ClosedWalkInTrap(g, c);
    }
  }
}
