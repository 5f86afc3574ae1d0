/** Thread creation and exit: the leader's exit as a join on the joinable threads. */
module Join {
  import opened Counting

  datatype JoinType = Joinable | Detached

  datatype Slot = Slot(tid: nat, jointype: JoinType)

  /** `need` is the thread count the leader read when it called exit. */
  datatype Leader = Creating | Exiting(need: nat) | Returned(need: nat)

  /**
   table[0] is the leader; `exited` are the threads past their exit call and
   `posted` those that raised the global semaphore there.
   */
  datatype State = State(table: seq<Slot>, numOfJoinableThreads: nat, sem: nat,
                         exited: set<nat>, posted: set<nat>, leader: Leader)

  datatype Action = Create(creator: nat, tid: nat, jointype: JoinType) | CallExit | Return | ThreadExit(tid: nat)

  /** First slot from index i on that belongs to tid, |table| when there is none. */
  function Lookup(table: seq<Slot>, tid: nat, i: nat): (k: nat)
    requires i <= |table|
    ensures i <= k <= |table|
    ensures k < |table| ==> table[k].tid == tid
    ensures forall j :: i <= j < k ==> table[j].tid != tid
    decreases |table| - i
  {
    if i == |table| || table[i].tid == tid then i else Lookup(table, tid, i + 1)
  }

  /** The type an exiting thread finds for itself; an unused slot reads as joinable. */
  function TypeFound(table: seq<Slot>, tid: nat): JoinType
    requires table != []
  {
    var k := Lookup(table, tid, 1);
    if k == |table| then Joinable else table[k].jointype
  }

  ghost predicate IsThread(table: seq<Slot>, tid: nat) {
    exists k :: 1 <= k < |table| && table[k].tid == tid
  }

  ghost predicate IsJoinable(s: State, tid: nat) {
    exists k :: 1 <= k < |s.table| && s.table[k] == Slot(tid, Joinable)
  }

  ghost predicate Start(s: State) {
    && |s.table| == 1 && s.numOfJoinableThreads == 0 && s.sem == 0
    && s.exited == {} && s.posted == {} && s.leader == Creating
  }

  /** The leader before its exit, and every thread before its own, may create threads. */
  ghost predicate MayCreate(s: State, tid: nat)
    requires s.table != []
  {
    (s.leader == Creating && s.table[0].tid == tid) || (IsThread(s.table, tid) && tid !in s.exited)
  }

  /** A decrement by zero waits for zero instead. */
  predicate Released(need: nat, sem: nat) {
    if need == 0 then sem == 0 else sem >= need
  }

  ghost predicate Enabled(s: State, a: Action)
    requires s.table != []
  {
    match a
    case Create(creator, tid, _) =>
      !s.leader.Returned? && MayCreate(s, creator) && forall k :: 0 <= k < |s.table| ==> s.table[k].tid != tid
    case CallExit => s.leader == Creating
    case Return => s.leader.Exiting? && Released(s.leader.need, s.sem)
    case ThreadExit(tid) => IsThread(s.table, tid) && tid !in s.exited
  }

  ghost function Apply(s: State, a: Action): State
    requires s.table != [] && Enabled(s, a)
  {
    match a
    case Create(_, tid, jt) =>
      s.(table := s.table + [Slot(tid, jt)],
         numOfJoinableThreads := s.numOfJoinableThreads + (if jt == Joinable then 1 else 0))
    case CallExit => s.(leader := Exiting(s.numOfJoinableThreads))
    case Return => s.(sem := s.sem - s.leader.need, leader := Returned(s.leader.need))
    case ThreadExit(tid) =>
      if TypeFound(s.table, tid) == Detached then s.(exited := s.exited + {tid})
      else s.(exited := s.exited + {tid}, posted := s.posted + {tid}, sem := s.sem + 1)
  }

  /** The joinable threads recorded after the leader's own slot. */
  ghost function Joinables(table: seq<Slot>): set<nat> {
    if |table| <= 1 then {}
    else
      var last := table[|table| - 1];
      Joinables(table[..|table| - 1]) + (if last.jointype == Joinable then {last.tid} else {})
  }

  lemma {:induction false} JoinablesAreRecorded(table: seq<Slot>, tid: nat)
    ensures tid in Joinables(table) <==> exists k :: 1 <= k < |table| && table[k] == Slot(tid, Joinable)
  {
    if |table| > 1 {
      var rest := table[..|table| - 1];
      JoinablesAreRecorded(rest, tid);
      if k :| 1 <= k < |rest| && rest[k] == Slot(tid, Joinable) {
        assert table[k] == Slot(tid, Joinable);
      }
      if k :| 1 <= k < |table| && table[k] == Slot(tid, Joinable) {
        assert k < |rest| ==> rest[k] == Slot(tid, Joinable);
      }
    }
  }

  ghost predicate DistinctTids(table: seq<Slot>) {
    forall k, l :: 0 <= k < l < |table| ==> table[k].tid != table[l].tid
  }

  ghost predicate Inv(s: State) {
    && |s.table| >= 1 && DistinctTids(s.table)
    && s.numOfJoinableThreads == |Joinables(s.table)|
    && s.posted == s.exited * Joinables(s.table)
    && (forall t :: t in s.exited ==> IsThread(s.table, t))
    && (match s.leader
        case Creating => s.sem == |s.posted|
        case Exiting(need) => s.sem == |s.posted| && need <= s.numOfJoinableThreads
        case Returned(need) => s.sem + need == |s.posted| && need <= s.numOfJoinableThreads)
  }

  lemma RecordingGrows(table: seq<Slot>, tid: nat, jt: JoinType)
    requires |table| >= 1 && DistinctTids(table) && forall k :: 0 <= k < |table| ==> table[k].tid != tid
    ensures DistinctTids(table + [Slot(tid, jt)])
    ensures Joinables(table + [Slot(tid, jt)]) == Joinables(table) + (if jt == Joinable then {tid} else {})
    ensures tid !in Joinables(table) && !IsThread(table, tid)
  {
    JoinablesAreRecorded(table, tid);
    assert (table + [Slot(tid, jt)])[..|table|] == table;
  }

  lemma StaysRecorded(table: seq<Slot>, slot: Slot, t: nat)
    requires IsThread(table, t)
    ensures IsThread(table + [slot], t)
  {
    var k :| 1 <= k < |table| && table[k].tid == t;
    assert (table + [slot])[k] == table[k];
  }

  lemma NewcomerHasNotExited(exited: set<nat>, joinable: set<nat>, tid: nat)
    requires tid !in exited && tid !in joinable
    ensures exited * (joinable + {tid}) == exited * joinable && |joinable + {tid}| == |joinable| + 1
  {
  }

  lemma CreateKeepsInv(s: State, creator: nat, tid: nat, jt: JoinType)
    requires Inv(s) && Enabled(s, Create(creator, tid, jt))
    ensures Inv(Apply(s, Create(creator, tid, jt)))
  {
    RecordingGrows(s.table, tid, jt);
    assert tid !in s.exited;
    NewcomerHasNotExited(s.exited, Joinables(s.table), tid);
    forall t | t in s.exited
      ensures IsThread(s.table + [Slot(tid, jt)], t)
    {
      StaysRecorded(s.table, Slot(tid, jt), t);
    }
  }

  /** A recorded thread finds its own type. */
  lemma ThreadFindsItself(s: State, tid: nat)
    requires Inv(s) && IsThread(s.table, tid)
    ensures TypeFound(s.table, tid) == Joinable <==> tid in Joinables(s.table)
  {
    var k :| 1 <= k < |s.table| && s.table[k].tid == tid;
    assert Lookup(s.table, tid, 1) == k;
    JoinablesAreRecorded(s.table, tid);
  }

  lemma DetachedExit(exited: set<nat>, joinable: set<nat>, tid: nat)
    requires tid !in joinable
    ensures (exited + {tid}) * joinable == exited * joinable
  {
  }

  lemma JoinableExit(exited: set<nat>, joinable: set<nat>, tid: nat)
    requires tid in joinable && tid !in exited
    ensures (exited + {tid}) * joinable == exited * joinable + {tid}
    ensures |exited * joinable + {tid}| == |exited * joinable| + 1
  {
  }

  lemma ThreadExitKeepsInv(s: State, tid: nat)
    requires Inv(s) && Enabled(s, ThreadExit(tid))
    ensures Inv(Apply(s, ThreadExit(tid)))
  {
    ThreadFindsItself(s, tid);
    if tid in Joinables(s.table) {
      JoinableExit(s.exited, Joinables(s.table), tid);
    } else {
      DetachedExit(s.exited, Joinables(s.table), tid);
    }
  }

  lemma LeaderKeepsInv(s: State, a: Action)
    requires Inv(s) && Enabled(s, a) && (a.CallExit? || a.Return?)
    ensures Inv(Apply(s, a))
  {
    SubsetIsNoLarger(s.posted, Joinables(s.table));
  }

  lemma StepKeepsInv(s: State, a: Action)
    requires Inv(s) && Enabled(s, a)
    ensures Inv(Apply(s, a))
  {
    match a
    case Create(creator, tid, jt) => CreateKeepsInv(s, creator, tid, jt);
    case CallExit => LeaderKeepsInv(s, a);
    case Return => LeaderKeepsInv(s, a);
    case ThreadExit(tid) => ThreadExitKeepsInv(s, tid);
  }

  lemma StartHasInvariant(s: State)
    requires Start(s)
    ensures Inv(s)
  {
  }

  /**
   The leader's exit returns only after every joinable thread has posted, whatever the detached ones do,
   as long as no joinable thread has been created after the leader's call.
   */
  lemma ReturnMeansAllPosted(s: State)
    requires Inv(s) && s.leader == Returned(s.numOfJoinableThreads)
    ensures forall t :: IsJoinable(s, t) ==> t in s.posted && t in s.exited
  {
    SubsetIsNoLarger(s.posted, Joinables(s.table));
    forall t | IsJoinable(s, t)
      ensures t in s.posted
    {
      JoinablesAreRecorded(s.table, t);
    }
  }

  /** The waiting leader is released by as many posts as there were joinable threads when it called, whoever posts. */
  lemma LeaderIsReleased(s: State)
    requires Inv(s) && s.leader.Exiting?
    ensures s.leader.need == s.numOfJoinableThreads ==> (Enabled(s, Return) <==> s.posted == Joinables(s.table))
    ensures Enabled(s, Return) <==> Released(s.leader.need, |s.posted|)
  {
    SubsetIsNoLarger(s.posted, Joinables(s.table));
  }

  // ------------------------------------------------------------ threads created too late

  /** From s to e, these threads exit one after the other. */
  ghost predicate ExitRun(s: State, tids: seq<nat>, e: State)
    requires s.table != []
    decreases |tids|
  {
    if tids == [] then e == s
    else Enabled(s, ThreadExit(tids[0])) && ExitRun(Apply(s, ThreadExit(tids[0])), tids[1..], e)
  }

  lemma {:induction false} ExitRunKeepsInv(s: State, tids: seq<nat>, e: State)
    requires Inv(s) && ExitRun(s, tids, e)
    ensures Inv(e) && e.table == s.table && e.leader == s.leader && s.posted <= e.posted
    decreases |tids|
  {
    if tids != [] {
      ThreadExitKeepsInv(s, tids[0]);
      ExitRunKeepsInv(Apply(s, ThreadExit(tids[0])), tids[1..], e);
    }
  }

  /** Unless all have posted, some joinable thread can. */
  lemma OnePost(s: State) returns (tid: nat)
    requires Inv(s) && |s.posted| < s.numOfJoinableThreads
    ensures Enabled(s, ThreadExit(tid))
    ensures |Apply(s, ThreadExit(tid)).posted| == |s.posted| + 1
  {
    assert s.posted <= Joinables(s.table);
    assert Joinables(s.table) - s.posted != {} by {
      assert Joinables(s.table) == s.posted + (Joinables(s.table) - s.posted);
    }
    tid :| tid in Joinables(s.table) - s.posted;
    JoinablesAreRecorded(s.table, tid);
    ThreadFindsItself(s, tid);
  }

  /** Any number of posts between those made and all of them can be reached. */
  lemma {:induction false} PostSome(s: State, n: nat) returns (tids: seq<nat>, e: State)
    requires Inv(s) && |s.posted| <= n <= s.numOfJoinableThreads
    ensures ExitRun(s, tids, e) && |e.posted| == n
    decreases n - |s.posted|
  {
    if |s.posted| == n {
      tids, e := [], s;
    } else {
      var tid := OnePost(s);
      ThreadExitKeepsInv(s, tid);
      var rest;
      rest, e := PostSome(Apply(s, ThreadExit(tid)), n);
      tids := [tid] + rest;
    }
  }

  /** The leader can get away from s while a joinable thread has not posted. */
  ghost predicate MayLeaveEarly(s: State)
    requires s.table != []
  {
    exists tids, e :: LeavesEarly(s, tids, e)
  }

  ghost predicate LeavesEarly(s: State, tids: seq<nat>, e: State)
    requires s.table != []
  {
    ExitRun(s, tids, e) && e.table != [] && Enabled(e, Return) && e.posted != Joinables(e.table)
  }

  /**
   A waiting leader may leave before some joinable thread has posted exactly when joinable threads have been
   created after its call and it is not already too late: fewer posts than threads, and none at all when it
   waits for zero.
   */
  lemma LeavesEarlyExactly(s: State)
    requires Inv(s) && s.leader.Exiting?
    ensures MayLeaveEarly(s) <==>
              && s.leader.need < s.numOfJoinableThreads
              && |s.posted| < s.numOfJoinableThreads && (s.leader.need == 0 ==> s.posted == {})
  {
    var need, all := s.leader.need, s.numOfJoinableThreads;
    if need < all && |s.posted| < all && (need == 0 ==> s.posted == {}) {
      var tids, e := PostSome(s, if |s.posted| < need then need else |s.posted|);
      ExitRunKeepsInv(s, tids, e);
      assert LeavesEarly(s, tids, e);
    }
    forall tids, e | LeavesEarly(s, tids, e)
      ensures need < all && |s.posted| < all && (need == 0 ==> s.posted == {})
    {
      ExitRunKeepsInv(s, tids, e);
      SubsetIsNoLarger(s.posted, e.posted);
      SubsetIsNoLarger(e.posted, Joinables(e.table));
    }
  }

  /** At the call itself, and as long as no more have posted than it waits for, late threads alone decide. */
  lemma WaitsForAllExactlyWithoutLateThreads(s: State)
    requires Inv(s) && s.leader.Exiting? && |s.posted| <= s.leader.need
    ensures MayLeaveEarly(s) <==> s.leader.need < s.numOfJoinableThreads
  {
    LeavesEarlyExactly(s);
  }

  lemma CallKeepsCount(s: State)
    requires Inv(s) && Enabled(s, CallExit)
    ensures var s' := Apply(s, CallExit);
            s'.leader == Exiting(s'.numOfJoinableThreads) && |s'.posted| <= s'.leader.need
  {
    SubsetIsNoLarger(s.posted, Joinables(s.table));
  }

  // ------------------------------------------------------------ waiting for zero

  /** A leader that called with no joinable thread waits for zero, and a late thread has posted. */
  ghost predicate Hanging(s: State) {
    s.leader == Exiting(0) && s.sem > 0
  }

  ghost predicate CanReturn(s: State, tids: seq<nat>, e: State)
    requires s.table != []
  {
    ExitRun(s, tids, e) && e.table != [] && Enabled(e, Return)
  }

  /** The leader can still return exactly when it does not hang in this way. */
  lemma ReturnsUnlessHanging(s: State)
    requires Inv(s) && s.leader.Exiting?
    ensures (exists tids, e :: CanReturn(s, tids, e)) <==> !Hanging(s)
  {
    SubsetIsNoLarger(s.posted, Joinables(s.table));
    if !Hanging(s) {
      var need := s.leader.need;
      var tids, e := PostSome(s, if |s.posted| < need then need else |s.posted|);
      ExitRunKeepsInv(s, tids, e);
      assert CanReturn(s, tids, e);
    }
    forall tids, e | CanReturn(s, tids, e)
      ensures !Hanging(s)
    {
      ExitRunKeepsInv(s, tids, e);
      SubsetIsNoLarger(s.posted, e.posted);
    }
  }

  /** Once it hangs it hangs for ever, whatever anybody does, further creations included. */
  lemma HangingPersists(s: State, a: Action)
    requires Inv(s) && Hanging(s) && Enabled(s, a)
    ensures a != Return && Hanging(Apply(s, a))
  {
  }

  /** Such a run: the leader calls with a detached thread only, which then creates a joinable one that posts. */
  lemma LateThreadHangsLeader()
    ensures var s0 := State([Slot(0, Joinable)], 0, 0, {}, {}, Creating);
            && Start(s0) && Enabled(s0, Create(0, 1, Detached))
            && var s1 := Apply(s0, Create(0, 1, Detached));
            && Enabled(s1, CallExit)
            && var s2 := Apply(s1, CallExit);
            && Enabled(s2, Create(1, 2, Joinable))
            && var s3 := Apply(s2, Create(1, 2, Joinable));
            && Enabled(s3, ThreadExit(2)) && Hanging(Apply(s3, ThreadExit(2)))
  {
    var table1 := [Slot(0, Joinable), Slot(1, Detached)];
    var table2 := [Slot(0, Joinable), Slot(1, Detached), Slot(2, Joinable)];
    assert [Slot(0, Joinable)] + [Slot(1, Detached)] == table1;
    assert table1 + [Slot(2, Joinable)] == table2;
    assert table1[1].tid == 1 && IsThread(table1, 1);
    assert table2[2].tid == 2 && IsThread(table2, 2);
    assert Lookup(table2, 2, 1) == 2;
  }

  /** Such a run: thread 1 creates thread 2 after the leader's call, thread 2 posts, and the leader is gone before 1. */
  lemma LateThreadReleasesLeader()
    ensures var s0 := State([Slot(0, Joinable)], 0, 0, {}, {}, Creating);
            && Start(s0) && Enabled(s0, Create(0, 1, Joinable))
            && var s1 := Apply(s0, Create(0, 1, Joinable));
            && Enabled(s1, CallExit)
            && var s2 := Apply(s1, CallExit);
            && Enabled(s2, Create(1, 2, Joinable))
            && var s3 := Apply(s2, Create(1, 2, Joinable));
            && Enabled(s3, ThreadExit(2))
            && var s4 := Apply(s3, ThreadExit(2));
            Enabled(s4, Return) && IsJoinable(s4, 1) && 1 !in s4.posted
  {
    var table1 := [Slot(0, Joinable), Slot(1, Joinable)];
    var table2 := [Slot(0, Joinable), Slot(1, Joinable), Slot(2, Joinable)];
    assert [Slot(0, Joinable)] + [Slot(1, Joinable)] == table1;
    assert table1 + [Slot(2, Joinable)] == table2;
    assert table1[1].tid == 1 && IsThread(table1, 1);
    assert table2[2].tid == 2 && IsThread(table2, 2);
    assert table2[1] == Slot(1, Joinable);
    assert Lookup(table2, 2, 1) == 2;
  }
}
