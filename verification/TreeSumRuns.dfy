/** Whole runs of the tree sum: they never get stuck and end with the right value printed. */
module TreeSumRuns {
  import opened Counting
  import opened Trees
  import opened TreeSum
  import B = Barrier

  ghost predicate CanMove(c: Setup, s: State)
    requires Sized(c, s)
  {
    exists a :: Enabled(c, s, a)
  }

  // ------------------------------------------------------------ progress

  /** The caller u of barrier b is at the barrier's code and not blocked there. */
  lemma CallerCanMove(c: Setup, s: State, rank: seq<nat>, b: nat, u: nat)
    requires Inv(c, s, rank) && s.created == |c.parent| && b < |c.parent| && u in Parties(c, b)
    requires u != b ==> s.threads[u].work == Added
    requires B.Ready(s.barriers[b], View(c, s, b)[u])
    ensures CanMove(c, s)
  {
    PartiesCount(c, b);
    if u == b {
      assert Enabled(c, s, Own(u));
    } else {
      assert Enabled(c, s, Par(u));
    }
  }

  lemma LockHolderCanMove(c: Setup, s: State, rank: seq<nat>, i: nat)
    requires Inv(c, s, rank) && s.created == |c.parent| && HasParent(c, i)
    requires B.Through(s.threads[i].own) && s.threads[i].work == Idle
    ensures CanMove(c, s)
  {
    if s.locks[c.parent[i]] > 0 {
      assert Enabled(c, s, Lock(i));
    } else {
      var h: nat :| HoldsLock(c, s, c.parent[i], h);
      match s.threads[h].work {
        case Locked => assert Enabled(c, s, Load(h));
        case Read(_) => assert Enabled(c, s, Store(h));
        case Written => assert Enabled(c, s, Unlock(h));
      }
    }
  }

  /** Past its own barrier a node can add to its parent's sum, call the parent's barrier, or post. */
  lemma PastOwnBarrierCanMove(c: Setup, s: State, rank: seq<nat>, i: nat)
    requires Inv(c, s, rank) && s.created == |c.parent| && i < |c.parent|
    requires !s.threads[i].posted && s.threads[i].par == B.Before && B.Through(s.threads[i].own)
    ensures CanMove(c, s)
  {
    var t := s.threads[i];
    if !HasParent(c, i) {
      assert Enabled(c, s, Post(i));
    } else {
      match t.work {
        case Idle => LockHolderCanMove(c, s, rank, i);
        case Locked => assert Enabled(c, s, Load(i));
        case Read(_) => assert Enabled(c, s, Store(i));
        case Written => assert Enabled(c, s, Unlock(i));
        case Added =>
          var p := c.parent[i];
          assert BarrierOk(c, s, p);
          var v := View(c, s, p);
          PartiesCount(c, p);
          assert i in Children(c.parent, p);
          assert i in v && v[i] == t.par;
          FirstArrivalIsReady(s.barriers[p], v, i);
          CallerCanMove(c, s, rank, p, i);
      }
    }
  }

  /** Below a thread that has not called its parent's barrier, somebody can move. */
  lemma {:induction false} SubtreeCanMove(c: Setup, s: State, rank: seq<nat>, i: nat)
    requires Inv(c, s, rank) && s.created == |c.parent| && i < |c.parent|
    requires !s.threads[i].posted && s.threads[i].par == B.Before
    ensures CanMove(c, s)
    decreases rank[i]
  {
    var t := s.threads[i];
    PartiesCount(c, i);
    if !B.Through(t.own) {
      assert BarrierOk(c, s, i);
      var v := View(c, s, i);
      assert i in v && v[i] == t.own;
      if B.Ready(s.barriers[i], t.own) {
        assert Enabled(c, s, Own(i));
      } else {
        var u := B.BlockedOnlyForAReason(s.barriers[i], v, i);
        if s.threads[u].work == Added {
          CallerCanMove(c, s, rank, i, u);
        } else {
          SubtreeCanMove(c, s, rank, u);
        }
      }
    } else {
      PastOwnBarrierCanMove(c, s, rank, i);
    }
  }

  lemma FirstArrivalIsReady(b: B.Barrier, v: B.Callers, i: nat)
    requires B.Inv(b, v) && i in v && v[i].Before?
    ensures B.Ready(b, v[i])
  {
    B.ArrivalKeepsInv(b, v, i);
  }

  lemma UnpostedCanMove(c: Setup, s: State, rank: seq<nat>, i: nat)
    requires Inv(c, s, rank) && s.created == |c.parent| && i < |c.parent| && !s.threads[i].posted
    ensures CanMove(c, s)
  {
    var t := s.threads[i];
    if t.par == B.Before {
      SubtreeCanMove(c, s, rank, i);
    } else if !HasParent(c, i) || B.Through(t.par) {
      assert Enabled(c, s, Post(i));
    } else {
      WaitingForParentCanMove(c, s, rank, i);
    }
  }

  /** A node at its parent's barrier can move, or another caller of that barrier or something below it can. */
  lemma WaitingForParentCanMove(c: Setup, s: State, rank: seq<nat>, i: nat)
    requires Inv(c, s, rank) && s.created == |c.parent| && HasParent(c, i)
    requires s.threads[i].par != B.Before && !B.Through(s.threads[i].par)
    ensures CanMove(c, s)
  {
    var t, p := s.threads[i], c.parent[i];
    assert BarrierOk(c, s, p);
    var v := View(c, s, p);
    PartiesCount(c, p);
    assert i in Children(c.parent, p);
    assert i in v && v[i] == t.par;
    if B.Ready(s.barriers[p], t.par) {
      CallerCanMove(c, s, rank, p, i);
    } else {
      var u := B.BlockedOnlyForAReason(s.barriers[p], v, i);
      if u == p || s.threads[u].work == Added {
        CallerCanMove(c, s, rank, p, u);
      } else {
        SubtreeCanMove(c, s, rank, u);
      }
    }
  }

  /** No state before the print is deadlocked. */
  lemma NoDeadlock(c: Setup, s: State, rank: seq<nat>)
    requires Inv(c, s, rank) && !s.leader.Printed?
    ensures CanMove(c, s)
  {
    if s.leader == Creating {
      assert Enabled(c, s, Create);
    } else if i: nat :| i < |c.parent| && !s.threads[i].posted {
      UnpostedCanMove(c, s, rank, i);
    } else {
      assert Posted(s) == Range(|c.parent|);
      assert Enabled(c, s, Join);
    }
  }

  // ------------------------------------------------------------ termination

  ghost function RoleLeft(r: B.Role): nat {
    match r
    case Before => 3
    case Waiting => 1
    case Releasing => 2
    case Resetting => 1
    case Released => 0
    case Returned => 0
  }

  ghost function WorkLeft(w: Work): nat {
    match w
    case Idle => 4
    case Locked => 3
    case Read(_) => 2
    case Written => 1
    case Added => 0
  }

  ghost function ThreadLeft(t: Thread): int {
    RoleLeft(t.own) + WorkLeft(t.work) + RoleLeft(t.par) + (if t.posted then 0 else 1)
  }

  ghost function LeaderLeft(c: Setup, s: State): int {
    match s.leader
    case Creating => |c.parent| - s.created + 2
    case Joining => 1
    case Printed(_) => 0
  }

  ghost function StepsLeft(s: State): seq<int> {
    seq(|s.threads|, i requires 0 <= i < |s.threads| => ThreadLeft(s.threads[i]))
  }

  ghost function Measure(c: Setup, s: State): int {
    Sum(StepsLeft(s)) + LeaderLeft(c, s)
  }

  lemma ThreadStepDescends(c: Setup, s: State, s': State, i: nat)
    requires i < |s.threads| == |s'.threads| && s'.threads == s.threads[i := s'.threads[i]]
    requires ThreadLeft(s'.threads[i]) < ThreadLeft(s.threads[i])
    requires s'.leader == s.leader && s'.created == s.created
    ensures Measure(c, s') < Measure(c, s)
  {
    assert StepsLeft(s') == StepsLeft(s)[i := ThreadLeft(s'.threads[i])];
    SumOfUpdate(StepsLeft(s), i, ThreadLeft(s'.threads[i]));
  }

  lemma StepDescends(c: Setup, s: State, a: Action)
    requires Sized(c, s) && Enabled(c, s, a)
    ensures Measure(c, Apply(c, s, a)) < Measure(c, s)
  {
    var s' := Apply(c, s, a);
    if a.Create? || a.Join? {
      assert StepsLeft(s') == StepsLeft(s);
    } else {
      ThreadStepDescends(c, s, s', a.i);
    }
  }

  lemma MeasureIsNatural(c: Setup, s: State)
    requires Sized(c, s)
    ensures Measure(c, s) >= 0
  {
    SumOfNaturals(StepsLeft(s));
  }

  // ------------------------------------------------------------ runs

  ghost predicate Step(c: Setup, s: State, s': State)
    requires Sized(c, s)
  {
    if CanMove(c, s) then exists a :: Enabled(c, s, a) && s' == Apply(c, s, a)
    else s' == s
  }

  ghost predicate StepAt(c: Setup, run: nat -> State, k: nat) {
    Sized(c, run(k)) ==> Step(c, run(k), run(k + 1))
  }

  /** A maximal run of the leader and the threads, in any interleaving. */
  ghost predicate Run(c: Setup, run: nat -> State) {
    run(0) == Start(c) && forall k: nat :: StepAt(c, run, k)
  }

  lemma {:induction false} InvAlongRun(c: Setup, run: nat -> State, rank: seq<nat>, k: nat)
    requires WellFormed(c) && Ranked(c.parent, rank) && Run(c, run)
    ensures Inv(c, run(k), rank)
  {
    if k == 0 {
      StartHasInvariant(c, rank);
    } else {
      InvAlongRun(c, run, rank, k - 1);
      assert StepAt(c, run, k - 1);
      if CanMove(c, run(k - 1)) {
        var a :| Enabled(c, run(k - 1), a) && run(k) == Apply(c, run(k - 1), a);
        StepKeepsInv(c, run(k - 1), rank, a);
      }
    }
  }

  lemma {:induction false} PrintsFrom(c: Setup, run: nat -> State, rank: seq<nat>, k: nat) returns (e: nat)
    requires WellFormed(c) && Ranked(c.parent, rank) && Run(c, run) && Inv(c, run(k), rank)
    ensures run(e).leader.Printed?
    decreases Measure(c, run(k))
  {
    if run(k).leader.Printed? {
      e := k;
    } else {
      NoDeadlock(c, run(k), rank);
      assert StepAt(c, run, k);
      var a :| Enabled(c, run(k), a) && run(k + 1) == Apply(c, run(k), a);
      StepKeepsInv(c, run(k), rank, a);
      StepDescends(c, run(k), a);
      MeasureIsNatural(c, run(k));
      e := PrintsFrom(c, run, rank, k + 1);
    }
  }

  /** The sum over the leaves of what they start with. */
  ghost function LeafSum(c: Setup): int
    requires |c.init| == |c.parent|
  {
    Sum(seq(|c.init|, i requires 0 <= i < |c.init| => if Children(c.parent, i) == {} then c.init[i] else 0))
  }

  /**
   Every run prints; what is printed is the total of all starting values, after every thread
   has posted its exit; with inner nodes starting at 0 it is the sum of the leaves.
   */
  lemma EveryRunPrintsTheTotal(c: Setup, run: nat -> State)
    requires WellFormed(c) && Run(c, run)
    ensures exists k :: run(k).leader.Printed?
    ensures forall k :: run(k).leader.Printed? ==>
              run(k).leader.value == Sum(c.init) && Posted(run(k)) == Range(|c.parent|)
    ensures (forall i: nat :: i < |c.parent| && Children(c.parent, i) != {} ==> c.init[i] == 0) ==>
              Sum(c.init) == LeafSum(c)
  {
    var rank: seq<nat> :| Ranked(c.parent, rank);
    InvAlongRun(c, run, rank, 0);
    var e := PrintsFrom(c, run, rank, 0);
    forall k | run(k).leader.Printed?
      ensures run(k).leader.value == Sum(c.init) && Posted(run(k)) == Range(|c.parent|)
    {
      InvAlongRun(c, run, rank, k);
    }
    if forall i: nat :: i < |c.parent| && Children(c.parent, i) != {} ==> c.init[i] == 0 {
      assert c.init ==
        seq(|c.init|, i requires 0 <= i < |c.init| => if Children(c.parent, i) == {} then c.init[i] else 0);
    }
  }

  /** When node i is past its own barrier its sum is the total of its subtree, and stays so. */
  lemma SubtreeTotalAfterOwnBarrier(c: Setup, run: nat -> State, rank: seq<nat>, k: nat, i: nat)
    requires WellFormed(c) && Ranked(c.parent, rank) && Run(c, run)
    requires i < |c.parent| && |run(k).threads| == |c.parent| && B.Through(run(k).threads[i].own)
    ensures |run(k).sum| == |c.parent| && run(k).sum[i] == Total(c.parent, rank, c.init, i)
  {
    InvAlongRun(c, run, rank, k);
    PastOwnBarrier(c, run(k), rank, i);
  }
}
