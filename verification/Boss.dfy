/** The boss's check of the finished listing against the adjacency matrix. */
module Boss {
  import opened Graphs
  import TopoSort

  lemma CellFits(n: nat, u: nat, v: nat)
    requires u < n && v < n
    ensures 0 <= n * u + v < n * n
  {
    assert n * u + n == n * (u + 1);
    assert n * (u + 1) <= n * n;
  }

  /** The graph stored row by row in the shared array. */
  ghost function GraphOf(a: seq<int>, n: nat): (g: Graph)
    requires |a| == n * n
    ensures IsGraph(g) && g.n == n
    ensures forall u: nat, v: nat :: u < n && v < n ==> (Edge(g, u, v) <==> (CellFits(n, u, v); a[n * u + v] != 0))
  {
    Graph(n, seq(n, u requires 0 <= u < n => seq(n, v requires 0 <= v < n => CellFits(n, u, v); a[n * u + v] != 0)))
  }

  /** No edge from a later entry of t back to an earlier one. */
  ghost predicate NoBackEdge(g: Graph, t: seq<nat>) {
    forall i, j :: 0 <= i < j < |t| ==> !Edge(g, t[j], t[i])
  }

  lemma BackEdgesInMatrix(a: seq<int>, n: nat, t: seq<nat>)
    requires |a| == n * n && |t| == n && forall i :: 0 <= i < n ==> t[i] < n
    ensures NoBackEdge(GraphOf(a, n), t) <==>
              forall i, j :: 0 <= i < j < n ==> (CellFits(n, t[j], t[i]); a[n * t[j] + t[i]] == 0)
  {
    forall i, j | 0 <= i < j < n
      ensures 0 <= n * t[j] + t[i] < n * n && (Edge(GraphOf(a, n), t[j], t[i]) <==> a[n * t[j] + t[i]] != 0)
    {
      CellFits(n, t[j], t[i]);
    }
  }

  /** f is 1 exactly when no edge points backwards in the listing. */
  method CheckListing(n: nat, A: array<int>, T: array<nat>) returns (f: int)
    requires A.Length == n * n && T.Length == n
    requires forall i :: 0 <= i < n ==> T[i] < n
    ensures f == if NoBackEdge(GraphOf(A[..], n), T[..]) then 1 else 0
    ensures var a, t := A[..], T[..];
            f == 1 <==> forall i, j :: 0 <= i < j < n ==> (CellFits(n, t[j], t[i]); a[n * t[j] + t[i]] == 0)
  {
    f := 1;
    ghost var g := GraphOf(A[..], n);
    var i := 0;
    while i < n
      invariant 0 <= i <= n && (f == 0 || f == 1)
      invariant f == 0 ==> !NoBackEdge(g, T[..])
      invariant f == 1 ==> forall a, b :: 0 <= a < i && a < b < n ==> !Edge(g, T[b], T[a])
    {
      var j := i + 1;
      while j < n
        invariant i < j <= n && (f == 0 || f == 1)
        invariant f == 0 ==> !NoBackEdge(g, T[..])
        invariant f == 1 ==> forall a, b :: 0 <= a < i && a < b < n ==> !Edge(g, T[b], T[a])
        invariant f == 1 ==> forall b :: i < b < j ==> !Edge(g, T[b], T[i])
      {
        CellFits(n, T[j], T[i]);
        if A[n * T[j] + T[i]] != 0 {
          f := 0;
          assert Edge(g, T[..][j], T[..][i]);
          break;
        }
        j := j + 1;
      }
      i := i + 1;
    }
    BackEdgesInMatrix(A[..], n, T[..]);
  }

  /** A permutation is topologically sorted exactly when it passes the check and no vertex points at itself. */
  lemma CheckAcceptsExactlySortedListings(g: Graph, t: seq<nat>)
    requires IsGraph(g) && IsPermutation(t, g.n)
    ensures IsTopological(g, t) <==> NoBackEdge(g, t) && forall u :: 0 <= u < g.n ==> !Edge(g, u, u)
  {
    if IsTopological(g, t) {
      forall u | 0 <= u < g.n
        ensures !Edge(g, u, u)
      {
        PermutationCovers(t, g.n, u);
        var a :| 0 <= a < |t| && t[a] == u;
      }
    } else if NoBackEdge(g, t) {
      var a, b :| 0 <= a < |t| && 0 <= b < |t| && Edge(g, t[a], t[b]) && a >= b;
      assert a == b;
    }
  }

  /** The check by itself is blind to self-loops: it passes a listing of a graph that has no topological order. */
  lemma CheckOverlooksSelfLoops()
    ensures var g := Graph(1, [[true]]);
            NoBackEdge(g, [0]) && IsPermutation([0], 1) && !IsTopological(g, [0])
  {
    assert Edge(Graph(1, [[true]]), [0][0], [0][0]);
  }

  /** But the boss never gets to check such a graph: the vertex waits for its own token. */
  lemma SelfLoopIsNeverChecked(g: Graph, run: nat -> TopoSort.State, u: nat, k: nat)
    requires IsGraph(g) && TopoSort.Run(g, run) && u < g.n && Edge(g, u, u)
    ensures run(k).boss < g.n
  {
    TopoSort.BossFinishesExactlyOnAcyclicGraphs(g, run);
    assert !Acyclic(g);
  }

  /** Whenever the boss gets to its check, the check passes. */
  lemma BossAlwaysApproves(g: Graph, run: nat -> TopoSort.State, k: nat)
    requires IsGraph(g) && TopoSort.Run(g, run) && run(k).boss >= g.n
    ensures NoBackEdge(g, run(k).T)
  {
    TopoSort.BossFinishesExactlyOnAcyclicGraphs(g, run);
    CheckAcceptsExactlySortedListings(g, run(k).T);
  }
}
