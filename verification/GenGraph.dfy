/** The random-graph generator: a matrix filled through a permutation. */
module GenGraph {
  import opened Counting
  import opened Graphs
  import opened Shuffle

  ghost function MatrixGraph(A: array2<int>): (g: Graph)
    requires A.Length0 == A.Length1
    reads A
    ensures IsGraph(g) && g.n == A.Length0
    ensures forall u, v :: 0 <= u < g.n && 0 <= v < g.n ==> (Edge(g, u, v) <==> A[u, v] != 0)
  {
    Graph(A.Length0, seq(A.Length0, u requires 0 <= u < A.Length0 reads A =>
      seq(A.Length1, v requires 0 <= v < A.Length1 && A.Length0 == A.Length1 reads A => A[u, v] != 0)))
  }

  /** Whether the draw for the a-th and the b-th vertex of the permutation gave an edge. */
  type Coin = (nat, nat) -> bool

  function Bit(edge: bool): int {
    if edge then 1 else 0
  }

  /** What the first i rounds of the double loop have written. */
  ghost predicate Filled(A: array2<int>, t: seq<nat>, coin: Coin, i: nat)
    requires A.Length0 == A.Length1 == |t| && IsPermutation(t, |t|)
    reads A
  {
    && (forall d :: 0 <= d < i && d < |t| ==> A[d, d] == 0)
    && (forall a, b :: 0 <= a < i && a < b < |t| ==> A[t[a], t[b]] == Bit(coin(a, b)) && A[t[b], t[a]] == 0)
  }

  /** The cells between the i-th vertex and the later ones before the j-th. */
  ghost predicate RowFilled(A: array2<int>, t: seq<nat>, coin: Coin, i: nat, j: nat)
    requires A.Length0 == A.Length1 == |t| && IsPermutation(t, |t|) && i < |t| && j <= |t|
    reads A
  {
    forall b :: i < b < j ==> A[t[i], t[b]] == Bit(coin(i, b)) && A[t[b], t[i]] == 0
  }

  /** The edge or none one way, nothing back. */
  method WritePair(A: array2<int>, u: nat, v: nat, edge: bool)
    requires u < A.Length0 == A.Length1 && v < A.Length0 && u != v
    modifies A
    ensures A[u, v] == Bit(edge) && A[v, u] == 0
    ensures forall x, y :: 0 <= x < A.Length0 && 0 <= y < A.Length1 ==>
              (x == u && y == v) || (x == v && y == u) || A[x, y] == old(A[x, y])
  {
    A[u, v] := if edge then 1 else 0;
    A[v, u] := 0;
  }

  /** One round: the diagonal cell i, and the cells between PERM[i] and each later PERM[j]. */
  method FillRound(n: nat, PERM: array<nat>, coin: Coin, A: array2<int>, i: nat)
    requires PERM.Length == n && A.Length0 == n && A.Length1 == n && i < n
    requires IsPermutation(PERM[..], n) && Filled(A, PERM[..], coin, i)
    modifies A
    ensures Filled(A, PERM[..], coin, i + 1)
  {
    ghost var t := PERM[..];
    A[i, i] := 0;
    var j := i + 1;
    while j < n
      invariant i < j <= n
      invariant PERM[..] == t
      invariant Filled(A, t, coin, i) && A[i, i] == 0 && RowFilled(A, t, coin, i, j)
    {
      WritePair(A, PERM[i], PERM[j], coin(i, j));
      j := j + 1;
    }
  }

  /** The edges lead forward in the shuffled order, where the coin says so. */
  ghost predicate IsDrawn(g: Graph, t: seq<nat>, coin: Coin) {
    && IsPermutation(t, g.n)
    && forall a: nat, b: nat :: a < g.n && b < g.n ==> (Edge(g, t[a], t[b]) <==> a < b && coin(a, b))
  }

  /** The result is a fully initialised 0/1 matrix of an acyclic graph, sorted by the permutation used. */
  method Generate(n: nat, draws: seq<nat>, coin: Coin) returns (A: array2<int>)
    requires |draws| == n
    ensures fresh(A) && A.Length0 == n && A.Length1 == n
    ensures forall u, v :: 0 <= u < n && 0 <= v < n ==> A[u, v] == 0 || A[u, v] == 1
    ensures IsTopological(MatrixGraph(A), Shuffled(n, draws, n)) && Acyclic(MatrixGraph(A))
    ensures IsDrawn(MatrixGraph(A), Shuffled(n, draws, n), coin)
  {
    A := new int[n, n];
    var PERM := Permute(n, draws);
    ghost var t := PERM[..];
    var i := 0;
    while i < n
      invariant 0 <= i <= n
      invariant PERM[..] == t && PERM.Length == n
      invariant Filled(A, t, coin, i)
    {
      FillRound(n, PERM, coin, A, i);
      i := i + 1;
    }
    FilledIsDrawn(A, t, coin);
    DrawnIsSorted(MatrixGraph(A), t, coin);
    SortedIsAcyclic(MatrixGraph(A), t);
  }

  lemma FilledIsDrawn(A: array2<int>, t: seq<nat>, coin: Coin)
    requires A.Length0 == A.Length1 == |t| && IsPermutation(t, |t|) && Filled(A, t, coin, |t|)
    ensures forall u, v :: 0 <= u < |t| && 0 <= v < |t| ==> A[u, v] == 0 || A[u, v] == 1
    ensures IsDrawn(MatrixGraph(A), t, coin)
  {
    forall u, v | 0 <= u < |t| && 0 <= v < |t|
      ensures A[u, v] == 0 || A[u, v] == 1
    {
      PermutationCovers(t, |t|, u);
      PermutationCovers(t, |t|, v);
      var a :| 0 <= a < |t| && t[a] == u;
      var b :| 0 <= b < |t| && t[b] == v;
      if a > b {
        assert A[t[a], t[b]] == 0;
      }
    }
    forall a: nat, b: nat | a < |t| && b < |t|
      ensures Edge(MatrixGraph(A), t[a], t[b]) <==> a < b && coin(a, b)
    {
      assert Edge(MatrixGraph(A), t[a], t[b]) <==> A[t[a], t[b]] != 0;
      assert A[t[a], t[a]] == 0;
    }
  }

  lemma DrawnIsSorted(g: Graph, t: seq<nat>, coin: Coin)
    requires IsDrawn(g, t, coin)
    ensures IsTopological(g, t)
  {
  }

  /** A topological listing ranks the vertices. */
  lemma SortedIsAcyclic(g: Graph, t: seq<nat>)
    requires IsTopological(g, t)
    ensures Acyclic(g)
  {
    forall u | u in Range(g.n)
      ensures u in t
    {
      PermutationCovers(t, g.n, u);
    }
    var rank: map<nat, nat> := map u | u in Range(g.n) :: Position(t, u);
    assert RankedOn(g, Range(g.n), rank);
  }
  // ------------------------------------------------------------ every acyclic graph can come out

  /** Some vertex of s has no edge into s. */
  lemma LastInRank(g: Graph, s: set<nat>, rank: map<nat, nat>) returns (v: nat)
    requires s != {} && RankedOn(g, s, rank)
    ensures v in s && forall u :: u in s ==> rank[u] <= rank[v]
    ensures forall u :: u in s ==> !Edge(g, v, u)
    decreases s
  {
    v :| v in s;
    if s != {v} {
      var w := LastInRank(g, s - {v}, rank);
      if rank[v] < rank[w] {
        v := w;
      }
    }
  }

  lemma {:induction false} ListedByRank(g: Graph, s: set<nat>, rank: map<nat, nat>) returns (t: seq<nat>)
    requires RankedOn(g, s, rank)
    ensures |t| == |s| && Distinct(t) && forall u :: u in t <==> u in s
    ensures forall a, b :: 0 <= a < |t| && 0 <= b < |t| && Edge(g, t[a], t[b]) ==> a < b
    decreases s
  {
    if s == {} {
      t := [];
    } else {
      var v := LastInRank(g, s, rank);
      var front := ListedByRank(g, s - {v}, rank);
      t := front + [v];
      forall a | 0 <= a < |t|
        ensures t[a] in s && !Edge(g, v, t[a])
      {
        assert a < |front| ==> front[a] in front;
      }
    }
  }

  lemma AcyclicCanBeSorted(g: Graph) returns (t: seq<nat>)
    requires Acyclic(g)
    ensures IsTopological(g, t)
  {
    var rank: map<nat, nat> :| RankedOn(g, Range(g.n), rank);
    t := ListedByRank(g, Range(g.n), rank);
    forall i | 0 <= i < |t|
      ensures t[i] < g.n
    {
      assert t[i] in t;
    }
  }

  /** The generator's graphs are exactly the acyclic ones: each comes out for some draws and some coin. */
  lemma ExactlyAcyclicGraphsAreDrawn(g: Graph)
    requires IsGraph(g)
    ensures Acyclic(g) <==>
              exists draws: seq<nat>, coin: Coin :: |draws| == g.n && IsDrawn(g, Shuffled(g.n, draws, g.n), coin)
  {
    if Acyclic(g) {
      var t := AcyclicCanBeSorted(g);
      EveryPermutationIsDrawnOnce(t, g.n);
      var draws :| Reduced(g.n, draws) && Shuffled(g.n, draws, g.n) == t;
      var coin: Coin := (a: nat, b: nat) => a < |t| && b < |t| && Edge(g, t[a], t[b]);
      assert IsDrawn(g, t, coin);
    }
    forall draws: seq<nat>, coin: Coin | |draws| == g.n && IsDrawn(g, Shuffled(g.n, draws, g.n), coin)
      ensures Acyclic(g)
    {
      DrawnIsSorted(g, Shuffled(g.n, draws, g.n), coin);
      SortedIsAcyclic(g, Shuffled(g.n, draws, g.n));
    }
  }
}
