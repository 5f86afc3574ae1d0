/** The boss and n workers sorting a graph together, at the grain of one semaphore or memory operation. */
module TopoSort {
  import opened Counting
  import opened Graphs

  /** Where worker i is; Waiting and Signalling carry the loop index j. */
  datatype Pc = Waiting(j: nat) | AtLock | Writing | Bumping | Unlocking | Signalling(j: nat) | Notifying | Finished

  /** sync[j] is worker j's semaphore, T and idx the shared listing, boss the notifications the boss has taken. */
  datatype State = State(pcs: seq<Pc>, sync: seq<nat>, mtx: nat, T: seq<nat>, idx: nat, ntfy: nat, boss: nat)

  datatype Action = Work(i: nat) | BossWait

  function Start(n: nat): State {
    State(seq(n, i => Waiting(0)), seq(n, j => 0), 1, seq(n, a => 0), 0, 0, 0)
  }

  ghost predicate Enabled(g: Graph, s: State, a: Action) {
    match a
    case BossWait => s.boss < g.n && s.ntfy > 0
    case Work(i) =>
      && i < |s.pcs|
      && match s.pcs[i]
         case Waiting(j) => (j < |s.sync| && Edge(g, j, i)) ==> s.sync[j] > 0
         case AtLock => s.mtx > 0
         case Writing => s.idx < |s.T|
         case Signalling(j) => i < |s.sync|
         case Finished => false
         case _ => true
  }

  ghost function Apply(g: Graph, s: State, a: Action): State
    requires Enabled(g, s, a)
  {
    match a
    case BossWait => s.(ntfy := s.ntfy - 1, boss := s.boss + 1)
    case Work(i) =>
      match s.pcs[i]
      case Waiting(j) =>
        if j >= g.n then s.(pcs := s.pcs[i := AtLock])
        else if j < |s.sync| && Edge(g, j, i) then
          s.(pcs := s.pcs[i := Waiting(j + 1)], sync := s.sync[j := s.sync[j] - 1])
        else s.(pcs := s.pcs[i := Waiting(j + 1)])
      case AtLock => s.(pcs := s.pcs[i := Writing], mtx := s.mtx - 1)
      case Writing => s.(pcs := s.pcs[i := Bumping], T := s.T[s.idx := i])
      case Bumping => s.(pcs := s.pcs[i := Unlocking], idx := s.idx + 1)
      case Unlocking => s.(pcs := s.pcs[i := Signalling(0)], mtx := s.mtx + 1)
      case Signalling(j) =>
        if j >= g.n then s.(pcs := s.pcs[i := Notifying])
        else if Edge(g, i, j) then
          s.(pcs := s.pcs[i := Signalling(j + 1)], sync := s.sync[i := s.sync[i] + 1])
        else s.(pcs := s.pcs[i := Signalling(j + 1)])
      case Notifying => s.(pcs := s.pcs[i := Finished], ntfy := s.ntfy + 1)
      case Finished => s
  }

  // ------------------------------------------------------------ the invariant

  ghost predicate Sized(g: Graph, s: State) {
    && IsGraph(g) && |s.pcs| == g.n && |s.sync| == g.n && |s.T| == g.n
    && forall i :: 0 <= i < g.n ==>
         (s.pcs[i].Waiting? ==> s.pcs[i].j <= g.n) && (s.pcs[i].Signalling? ==> s.pcs[i].j <= g.n)
  }

  /** Predecessors below this index have been waited for. */
  ghost function WaitPos(n: nat, pc: Pc): nat {
    if pc.Waiting? then pc.j else n
  }

  /** Successors below this index have been signalled. */
  ghost function SignalPos(n: nat, pc: Pc): nat {
    match pc
    case Signalling(j) => j
    case Notifying => n
    case Finished => n
    case _ => 0
  }

  ghost predicate Critical(pc: Pc) {
    pc.Writing? || pc.Bumping? || pc.Unlocking?
  }

  /** The worker's own number is counted in the listing. */
  ghost predicate Listed(pc: Pc) {
    pc.Unlocking? || pc.Signalling? || pc.Notifying? || pc.Finished?
  }

  /** Successors to which j has sent a token. */
  ghost function Sent(g: Graph, s: State, j: nat): set<nat>
    requires Sized(g, s) && j < g.n
  {
    set k: nat | k < g.n && Edge(g, j, k) && k < SignalPos(g.n, s.pcs[j])
  }

  /** Successors that have taken a token of j. */
  ghost function Taken(g: Graph, s: State, j: nat): set<nat>
    requires Sized(g, s) && j < g.n
  {
    set i: nat | i < g.n && Edge(g, j, i) && j < WaitPos(g.n, s.pcs[i])
  }

  /** Semaphore j holds the tokens j has sent that no successor has taken yet. */
  ghost predicate Balanced(g: Graph, s: State, j: nat)
    requires Sized(g, s) && j < g.n
  {
    s.sync[j] + |Taken(g, s, j)| == |Sent(g, s, j)|
  }

  ghost predicate Tokens(g: Graph, s: State)
    requires Sized(g, s)
  {
    forall j: nat :: j < g.n ==> Balanced(g, s, j)
  }

  ghost predicate Exclusive(s: State) {
    && s.mtx <= 1
    && (forall i :: 0 <= i < |s.pcs| && Critical(s.pcs[i]) ==> s.mtx == 0)
    && (forall i, k :: 0 <= i < k < |s.pcs| ==> !(Critical(s.pcs[i]) && Critical(s.pcs[k])))
    && (s.mtx == 0 ==> exists i :: 0 <= i < |s.pcs| && Critical(s.pcs[i]))
  }

  /** T[0..idx) lists exactly the listed workers, without repetition. */
  ghost predicate Listing(s: State) {
    && s.idx <= |s.T|
    && (forall a :: 0 <= a < s.idx ==> s.T[a] < |s.pcs| && Listed(s.pcs[s.T[a]]))
    && (forall i: nat :: i < |s.pcs| && Listed(s.pcs[i]) ==> i in s.T[..s.idx])
    && Distinct(s.T[..s.idx])
    && (forall i :: 0 <= i < |s.pcs| && s.pcs[i].Bumping? ==> s.idx < |s.T| && s.T[s.idx] == i)
  }

  /** Every listed vertex comes after all its predecessors. */
  ghost predicate Ordered(g: Graph, s: State) {
    s.idx <= |s.T| &&
    forall b, u: nat :: 0 <= b < s.idx && u < g.n && Edge(g, u, s.T[b]) ==> u in s.T[..b]
  }

  ghost function Done(s: State): set<nat> {
    set i: nat | i < |s.pcs| && s.pcs[i].Finished?
  }

  ghost predicate Inv(g: Graph, s: State) {
    && Sized(g, s) && Tokens(g, s) && Exclusive(s) && Listing(s) && Ordered(g, s)
    && s.ntfy + s.boss == |Done(s)|
  }

  lemma StartHasInvariant(g: Graph)
    requires IsGraph(g)
    ensures Inv(g, Start(g.n))
  {
    var s := Start(g.n);
    forall j: nat | j < g.n
      ensures Balanced(g, s, j)
    {
      assert Taken(g, s, j) == {} && Sent(g, s, j) == {};
    }
    assert Done(s) == {};
  }

  // ------------------------------------------------------------ tokens

  ghost predicate OnlyWorker(g: Graph, s: State, s': State, i: nat) {
    Sized(g, s) && Sized(g, s') && i < g.n && s'.pcs == s.pcs[i := s'.pcs[i]]
  }

  lemma SameTaken(g: Graph, s: State, s': State, i: nat, j: nat)
    requires OnlyWorker(g, s, s', i) && j < g.n
    requires WaitPos(g.n, s'.pcs[i]) == WaitPos(g.n, s.pcs[i])
    ensures Taken(g, s', j) == Taken(g, s, j)
  {
    assert forall x: nat :: x < g.n ==> WaitPos(g.n, s'.pcs[x]) == WaitPos(g.n, s.pcs[x]);
  }

  lemma SameSent(g: Graph, s: State, s': State, i: nat, j: nat)
    requires OnlyWorker(g, s, s', i) && j < g.n
    requires j == i ==> SignalPos(g.n, s'.pcs[i]) == SignalPos(g.n, s.pcs[i])
    ensures Sent(g, s', j) == Sent(g, s, j)
  {
    assert SignalPos(g.n, s'.pcs[j]) == SignalPos(g.n, s.pcs[j]);
  }

  lemma NoTokenMoves(g: Graph, s: State, s': State, i: nat, j: nat)
    requires OnlyWorker(g, s, s', i) && j < g.n && Balanced(g, s, j) && s'.sync[j] == s.sync[j]
    requires WaitPos(g.n, s'.pcs[i]) == WaitPos(g.n, s.pcs[i])
    requires SignalPos(g.n, s'.pcs[i]) == SignalPos(g.n, s.pcs[i])
    ensures Balanced(g, s', j)
  {
    SameTaken(g, s, s', i, j);
    SameSent(g, s, s', i, j);
  }

  lemma WaitTakesToken(g: Graph, s: State, s': State, i: nat, p: nat, j: nat)
    requires OnlyWorker(g, s, s', i) && j < g.n && p < g.n && Balanced(g, s, j)
    requires s.pcs[i] == Waiting(p) && s'.pcs[i] == Waiting(p + 1)
    requires s'.sync[j] + (if j == p && Edge(g, p, i) then 1 else 0) == s.sync[j]
    ensures Balanced(g, s', j)
  {
    SameSent(g, s, s', i, j);
    if j == p && Edge(g, p, i) {
      assert Taken(g, s', j) == Taken(g, s, j) + {i};
    } else {
      assert Taken(g, s', j) == Taken(g, s, j);
    }
  }

  lemma SignalSendsToken(g: Graph, s: State, s': State, i: nat, k: nat, j: nat)
    requires OnlyWorker(g, s, s', i) && j < g.n && k < g.n && Balanced(g, s, j)
    requires s.pcs[i] == Signalling(k) && s'.pcs[i] == Signalling(k + 1)
    requires s'.sync[j] == s.sync[j] + (if j == i && Edge(g, i, k) then 1 else 0)
    ensures Balanced(g, s', j)
  {
    SameTaken(g, s, s', i, j);
    if j != i {
      SameSent(g, s, s', i, j);
    } else {
      SentGrows(g, s, s', i, k);
    }
  }

  lemma SentGrows(g: Graph, s: State, s': State, i: nat, k: nat)
    requires OnlyWorker(g, s, s', i) && k < g.n
    requires s.pcs[i] == Signalling(k) && s'.pcs[i] == Signalling(k + 1)
    ensures Sent(g, s', i) == Sent(g, s, i) + (if Edge(g, i, k) then {k} else {}) && k !in Sent(g, s, i)
  {
  }

  lemma WorkKeepsTokens(g: Graph, s: State, i: nat)
    requires Sized(g, s) && Tokens(g, s) && Enabled(g, s, Work(i))
    ensures OnlyWorker(g, s, Apply(g, s, Work(i)), i) && Tokens(g, Apply(g, s, Work(i)))
  {
    var s' := Apply(g, s, Work(i));
    forall j: nat | j < g.n
      ensures Balanced(g, s', j)
    {
      if s.pcs[i].Waiting? && s.pcs[i].j < g.n {
        WaitTakesToken(g, s, s', i, s.pcs[i].j, j);
      } else if s.pcs[i].Signalling? && s.pcs[i].j < g.n {
        SignalSendsToken(g, s, s', i, s.pcs[i].j, j);
      } else {
        NoTokenMoves(g, s, s', i, j);
      }
    }
  }

  /** A worker past its wait loop has had a token from each predecessor, so each is listed. */
  lemma PredecessorsAreListed(g: Graph, s: State, i: nat, u: nat)
    requires Sized(g, s) && Tokens(g, s)
    requires i < g.n && u < g.n && Edge(g, u, i) && u < WaitPos(g.n, s.pcs[i])
    ensures Listed(s.pcs[u]) && SignalPos(g.n, s.pcs[u]) > 0
  {
    assert i in Taken(g, s, u);
    assert Balanced(g, s, u);
    assert Sent(g, s, u) != {};
  }

  // ------------------------------------------------------------ mutual exclusion and the listing

  lemma UpdateKeepsExclusive(s: State, s': State, i: nat)
    requires Exclusive(s) && i < |s.pcs| == |s'.pcs| && s'.pcs == s.pcs[i := s'.pcs[i]]
    requires if Critical(s.pcs[i]) == Critical(s'.pcs[i]) then s'.mtx == s.mtx
             else if Critical(s'.pcs[i]) then s.mtx == 1 && s'.mtx == 0
             else s'.mtx == s.mtx + 1
    ensures Exclusive(s')
  {
    if s'.mtx == 0 {
      if s.mtx == 0 {
        var k :| 0 <= k < |s.pcs| && Critical(s.pcs[k]);
        assert Critical(s'.pcs[k]);
      } else {
        assert Critical(s'.pcs[i]);
      }
    }
  }

  lemma WorkKeepsExclusive(g: Graph, s: State, i: nat)
    requires Sized(g, s) && Exclusive(s) && Enabled(g, s, Work(i))
    ensures Exclusive(Apply(g, s, Work(i)))
  {
    UpdateKeepsExclusive(s, Apply(g, s, Work(i)), i);
  }

  /** There is room for one more when somebody is still unlisted. */
  lemma RoomToWrite(g: Graph, s: State, i: nat)
    requires Sized(g, s) && Listing(s) && i < g.n && !Listed(s.pcs[i])
    ensures s.idx < g.n
  {
    var t := s.T[..s.idx];
    DistinctSize(t);
    assert Elements(t) <= Range(g.n) - {i} by {
      forall x | x in t
        ensures x < g.n && x != i
      {
        var a :| 0 <= a < s.idx && t[a] == x;
        assert s.T[a] == x;
      }
    }
    SubsetIsNoLarger(Elements(t), Range(g.n) - {i});
    assert i in Range(g.n);
  }

  /** Steps other than the increment of idx list nobody new. */
  lemma UpdateKeepsListing(s: State, s': State, i: nat)
    requires Listing(s) && i < |s.pcs| == |s'.pcs| && s'.pcs == s.pcs[i := s'.pcs[i]]
    requires Listed(s'.pcs[i]) == Listed(s.pcs[i])
    requires s'.idx == s.idx && |s'.T| == |s.T| && s'.T[..s.idx] == s.T[..s.idx]
    requires forall k :: 0 <= k < |s'.pcs| && s'.pcs[k].Bumping? ==> s.idx < |s.T| && s'.T[s.idx] == k
    ensures Listing(s')
  {
    forall a | 0 <= a < s'.idx
      ensures s'.T[a] < |s'.pcs| && Listed(s'.pcs[s'.T[a]])
    {
      assert s'.T[..s.idx][a] == s.T[..s.idx][a];
    }
  }

  lemma WriteKeepsListing(g: Graph, s: State, i: nat)
    requires Sized(g, s) && Exclusive(s) && Listing(s) && Enabled(g, s, Work(i)) && s.pcs[i].Writing?
    ensures Listing(Apply(g, s, Work(i)))
  {
    var s' := Apply(g, s, Work(i));
    forall k | 0 <= k < |s'.pcs| && s'.pcs[k].Bumping?
      ensures k == i
    {
      assert Critical(s.pcs[i]) && Critical(s.pcs[k]);
    }
    UpdateKeepsListing(s, s', i);
  }

  lemma BumpKeepsListing(g: Graph, s: State, i: nat)
    requires Sized(g, s) && Exclusive(s) && Listing(s) && Enabled(g, s, Work(i)) && s.pcs[i].Bumping?
    ensures Listing(Apply(g, s, Work(i)))
  {
    var s' := Apply(g, s, Work(i));
    assert s'.T[..s'.idx] == s.T[..s.idx] + [i];
    assert forall a :: 0 <= a < s.idx ==> s.T[a] != i;
    forall k: nat | k < |s'.pcs| && Listed(s'.pcs[k])
      ensures k in s'.T[..s'.idx]
    {
      assert k == i || k in s.T[..s.idx];
    }
    assert Critical(s.pcs[i]);
    assert forall k :: 0 <= k < |s.pcs| && Critical(s.pcs[k]) ==> k == i;
  }

  lemma WorkKeepsListing(g: Graph, s: State, i: nat)
    requires Sized(g, s) && Exclusive(s) && Listing(s) && Enabled(g, s, Work(i))
    ensures Listing(Apply(g, s, Work(i)))
  {
    if s.pcs[i].Writing? {
      WriteKeepsListing(g, s, i);
    } else if s.pcs[i].Bumping? {
      BumpKeepsListing(g, s, i);
    } else {
      var s' := Apply(g, s, Work(i));
      assert s'.pcs == s.pcs[i := s'.pcs[i]] && s'.T == s.T && s'.idx == s.idx;
      UpdateKeepsListing(s, s', i);
    }
  }

  lemma WorkKeepsOrdered(g: Graph, s: State, i: nat)
    requires Sized(g, s) && Tokens(g, s) && Listing(s) && Ordered(g, s) && Enabled(g, s, Work(i))
    ensures Ordered(g, Apply(g, s, Work(i)))
  {
    var s' := Apply(g, s, Work(i));
    forall b, u: nat | 0 <= b < s'.idx && u < g.n && Edge(g, u, s'.T[b])
      ensures u in s'.T[..b]
    {
      assert s'.T[..b] == s.T[..b];
      if b == s.idx {
        assert s.pcs[i].Bumping? && s'.T[b] == i;
        PredecessorsAreListed(g, s, i, u);
      }
    }
  }

  lemma WorkKeepsDone(g: Graph, s: State, i: nat)
    requires Sized(g, s) && Enabled(g, s, Work(i)) && s.ntfy + s.boss == |Done(s)|
    ensures var s' := Apply(g, s, Work(i)); s'.ntfy + s'.boss == |Done(s')|
  {
    var s' := Apply(g, s, Work(i));
    assert Done(s') == Done(s) + (if s.pcs[i].Notifying? then {i} else {});
  }

  lemma WorkKeepsInv(g: Graph, s: State, i: nat)
    requires Inv(g, s) && Enabled(g, s, Work(i))
    ensures Inv(g, Apply(g, s, Work(i)))
  {
    WorkKeepsTokens(g, s, i);
    WorkKeepsExclusive(g, s, i);
    WorkKeepsListing(g, s, i);
    WorkKeepsOrdered(g, s, i);
    WorkKeepsDone(g, s, i);
  }

  lemma StepKeepsInv(g: Graph, s: State, a: Action)
    requires Inv(g, s) && Enabled(g, s, a)
    ensures Inv(g, Apply(g, s, a))
  {
    if a.Work? {
      WorkKeepsInv(g, s, a.i);
    } else {
      var s' := Apply(g, s, a);
      assert Done(s') == Done(s);
      forall j: nat | j < g.n
        ensures Balanced(g, s', j)
      {
        assert Balanced(g, s, j);
        assert Taken(g, s', j) == Taken(g, s, j) && Sent(g, s', j) == Sent(g, s, j);
      }
    }
  }

  lemma AllNotifiedMeansAllListed(g: Graph, s: State)
    requires Inv(g, s) && s.boss >= g.n
    ensures s.idx == g.n && s.T[..s.idx] == s.T
  {
    SubsetIsNoLarger(Done(s), Range(g.n));
    var t := s.T[..s.idx];
    DistinctSize(t);
    forall i | i in Range(g.n)
      ensures i in Elements(t)
    {
      assert i in Done(s);
    }
    SubsetIsNoLarger(Range(g.n), Elements(t));
  }

  /** After n notifications T is a topological listing of all vertices. */
  lemma BossSeesTopologicalListing(g: Graph, s: State)
    requires Inv(g, s) && s.boss >= g.n
    ensures IsTopological(g, s.T)
  {
    AllNotifiedMeansAllListed(g, s);
    forall a, b | 0 <= a < |s.T| && 0 <= b < |s.T| && Edge(g, s.T[a], s.T[b])
      ensures a < b
    {
      assert s.T[a] in s.T[..b];
      var c :| 0 <= c < b && s.T[c] == s.T[a];
      assert c == a;
    }
  }

  // ------------------------------------------------------------ progress

  ghost predicate CanMove(g: Graph, s: State) {
    exists a :: Enabled(g, s, a)
  }

  lemma HolderCanMove(g: Graph, s: State, i: nat)
    requires Inv(g, s) && i < g.n && s.pcs[i] == AtLock
    ensures CanMove(g, s)
  {
    if s.mtx > 0 {
      assert Enabled(g, s, Work(i));
    } else {
      var h: nat :| h < |s.pcs| && Critical(s.pcs[h]);
      if s.pcs[h].Writing? {
        RoomToWrite(g, s, h);
      }
      assert Enabled(g, s, Work(h));
    }
  }

  /** A worker short of a token waits for one that is not done signalling. */
  lemma MissingTokenIsStillToCome(g: Graph, s: State, i: nat)
    requires Inv(g, s) && i < g.n && s.pcs[i].Waiting? && s.pcs[i].j < g.n
    requires Edge(g, s.pcs[i].j, i) && s.sync[s.pcs[i].j] == 0
    ensures SignalPos(g.n, s.pcs[s.pcs[i].j]) < g.n
  {
    var j := s.pcs[i].j;
    assert Balanced(g, s, j);
    assert i !in Taken(g, s, j);
    assert SignalPos(g.n, s.pcs[j]) == g.n ==> i in Sent(g, s, j);
    if SignalPos(g.n, s.pcs[j]) == g.n {
      assert Taken(g, s, j) <= Sent(g, s, j);
      SubsetIsNoLarger(Taken(g, s, j), Sent(g, s, j));
    }
  }

  lemma {:induction false} UnfinishedMeansMove(g: Graph, s: State, rank: map<nat, nat>, i: nat)
    requires Inv(g, s) && RankedOn(g, Range(g.n), rank)
    requires i < g.n && !s.pcs[i].Finished?
    ensures CanMove(g, s)
    decreases i in rank, if i in rank then rank[i] else 0
  {
    assert i in Range(g.n);
    var pc := s.pcs[i];
    if pc == AtLock {
      HolderCanMove(g, s, i);
    } else if pc.Waiting? && pc.j < g.n && Edge(g, pc.j, i) && s.sync[pc.j] == 0 {
      MissingTokenIsStillToCome(g, s, i);
      assert pc.j in Range(g.n);
      UnfinishedMeansMove(g, s, rank, pc.j);
    } else {
      if pc.Writing? {
        RoomToWrite(g, s, i);
      }
      assert Enabled(g, s, Work(i));
    }
  }

  /** On an acyclic graph nothing is ever stuck before the boss has all n notifications. */
  lemma NoDeadlockOnAcyclicGraphs(g: Graph, s: State)
    requires Inv(g, s) && Acyclic(g) && s.boss < g.n
    ensures CanMove(g, s)
  {
    var rank: map<nat, nat> :| RankedOn(g, Range(g.n), rank);
    if i: nat :| i < g.n && !s.pcs[i].Finished? {
      UnfinishedMeansMove(g, s, rank, i);
    } else {
      assert Done(s) == Range(g.n);
      assert Enabled(g, s, BossWait);
    }
  }

  ghost function StepsLeft(n: nat, pc: Pc): int {
    match pc
    case Waiting(j) => (n - j) + n + 7
    case AtLock => n + 6
    case Writing => n + 5
    case Bumping => n + 4
    case Unlocking => n + 3
    case Signalling(j) => (n - j) + 2
    case Notifying => 1
    case Finished => 0
  }

  ghost function WorkLeft(g: Graph, s: State): seq<int> {
    seq(|s.pcs|, i requires 0 <= i < |s.pcs| => StepsLeft(g.n, s.pcs[i]))
  }

  ghost function Measure(g: Graph, s: State): int {
    Sum(WorkLeft(g, s)) + g.n - s.boss
  }

  lemma StepDescends(g: Graph, s: State, a: Action)
    requires Inv(g, s) && Enabled(g, s, a)
    ensures Measure(g, Apply(g, s, a)) < Measure(g, s)
  {
    var s' := Apply(g, s, a);
    if a.Work? {
      assert s'.pcs == s.pcs[a.i := s'.pcs[a.i]];
      WorkDescends(g, s, s', a.i);
    } else {
      assert WorkLeft(g, s') == WorkLeft(g, s);
    }
  }

  lemma WorkDescends(g: Graph, s: State, s': State, i: nat)
    requires i < |s.pcs| == |s'.pcs| && s'.pcs == s.pcs[i := s'.pcs[i]] && s'.boss == s.boss
    requires StepsLeft(g.n, s'.pcs[i]) < StepsLeft(g.n, s.pcs[i])
    ensures Measure(g, s') < Measure(g, s)
  {
    var left := StepsLeft(g.n, s'.pcs[i]);
    assert WorkLeft(g, s') == WorkLeft(g, s)[i := left];
    SumOfUpdate(WorkLeft(g, s), i, left);
  }

  lemma MeasureIsNatural(g: Graph, s: State)
    requires Inv(g, s)
    ensures Measure(g, s) >= 0
  {
    SumOfNaturals(WorkLeft(g, s));
    SubsetIsNoLarger(Done(s), Range(g.n));
  }

  // ------------------------------------------------------------ traps

  ghost predicate AllWaiting(s: State, c: set<nat>) {
    forall v :: v in c ==> v < |s.pcs| && s.pcs[v].Waiting?
  }

  /** Workers of a trap never leave their wait loop. */
  lemma TrapStaysShut(g: Graph, s: State, a: Action, c: set<nat>)
    requires Inv(g, s) && Enabled(g, s, a) && Trap(g, c) && AllWaiting(s, c)
    ensures AllWaiting(Apply(g, s, a), c)
  {
    if a.Work? && a.i in c && s.pcs[a.i].j >= g.n {
      assert HeldUp(g, c, a.i);
      var u :| u in c && Edge(g, u, a.i);
      assert u in Range(g.n);
      PredecessorsAreListed(g, s, a.i, u);
    }
  }

  lemma BossWaitsForTrap(g: Graph, s: State, c: set<nat>)
    requires Inv(g, s) && Trap(g, c) && AllWaiting(s, c)
    ensures s.boss < g.n
  {
    var v :| v in c;
    assert v in Range(g.n);
    assert Done(s) <= Range(g.n) - {v};
    SubsetIsNoLarger(Done(s), Range(g.n) - {v});
  }

  // ------------------------------------------------------------ runs

  ghost predicate Step(g: Graph, s: State, s': State) {
    if CanMove(g, s) then exists a :: Enabled(g, s, a) && s' == Apply(g, s, a)
    else s' == s
  }

  ghost predicate StepAt(g: Graph, run: nat -> State, k: nat) {
    Step(g, run(k), run(k + 1))
  }

  /** A maximal run: a step is taken as long as one is possible. */
  ghost predicate Run(g: Graph, run: nat -> State) {
    run(0) == Start(g.n) && forall k: nat :: StepAt(g, run, k)
  }

  lemma {:induction false} InvAlongRun(g: Graph, run: nat -> State, k: nat)
    requires IsGraph(g) && Run(g, run)
    ensures Inv(g, run(k))
  {
    if k == 0 {
      StartHasInvariant(g);
    } else {
      InvAlongRun(g, run, k - 1);
      assert StepAt(g, run, k - 1);
      if CanMove(g, run(k - 1)) {
        var a :| Enabled(g, run(k - 1), a) && run(k) == Apply(g, run(k - 1), a);
        StepKeepsInv(g, run(k - 1), a);
      }
    }
  }

  lemma {:induction false} BossFinishesFrom(g: Graph, run: nat -> State, k: nat) returns (e: nat)
    requires IsGraph(g) && Run(g, run) && Acyclic(g)
    ensures run(e).boss >= g.n
    decreases Measure(g, run(k))
  {
    InvAlongRun(g, run, k);
    if run(k).boss >= g.n {
      e := k;
    } else {
      NoDeadlockOnAcyclicGraphs(g, run(k));
      assert StepAt(g, run, k);
      var a :| Enabled(g, run(k), a) && run(k + 1) == Apply(g, run(k), a);
      StepDescends(g, run(k), a);
      MeasureIsNatural(g, run(k));
      e := BossFinishesFrom(g, run, k + 1);
    }
  }

  lemma {:induction false} TrapAlongRun(g: Graph, run: nat -> State, c: set<nat>, k: nat)
    requires IsGraph(g) && Run(g, run) && Trap(g, c)
    ensures AllWaiting(run(k), c)
  {
    if k == 0 {
      assert forall v :: v in c ==> v in Range(g.n);
    } else {
      TrapAlongRun(g, run, c, k - 1);
      InvAlongRun(g, run, k - 1);
      assert StepAt(g, run, k - 1);
      if CanMove(g, run(k - 1)) {
        var a :| Enabled(g, run(k - 1), a) && run(k) == Apply(g, run(k - 1), a);
        TrapStaysShut(g, run(k - 1), a, c);
      }
    }
  }

  /** The boss gets past its wait loop in a maximal run exactly when the graph is acyclic, and then T is sorted. */
  lemma BossFinishesExactlyOnAcyclicGraphs(g: Graph, run: nat -> State)
    requires IsGraph(g) && Run(g, run)
    ensures Acyclic(g) <==> exists k :: run(k).boss >= g.n
    ensures forall k :: run(k).boss >= g.n ==> IsTopological(g, run(k).T)
  {
    AcyclicMeansNoTrap(g);
    if Acyclic(g) {
      var e := BossFinishesFrom(g, run, 0);
    } else {
      var c :| Trap(g, c);
      forall k
        ensures run(k).boss < g.n
      {
        TrapAlongRun(g, run, c, k);
        InvAlongRun(g, run, k);
        BossWaitsForTrap(g, run(k), c);
      }
    }
    forall k | run(k).boss >= g.n
      ensures IsTopological(g, run(k).T)
    {
      InvAlongRun(g, run, k);
      BossSeesTopologicalListing(g, run(k));
    }
  }

  /** The same in terms of closed walks: the boss finishes exactly when no dependency comes back to itself. */
  lemma BossFinishesExactlyWithoutClosedWalks(g: Graph, run: nat -> State)
    requires IsGraph(g) && Run(g, run)
    ensures (exists k :: run(k).boss >= g.n) <==> !exists w :: IsClosedWalk(g, w)
  {
    BossFinishesExactlyOnAcyclicGraphs(g, run);
    AcyclicExactlyWithoutClosedWalks(g);
  }
}
