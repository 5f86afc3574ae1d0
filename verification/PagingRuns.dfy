/** Whole runs of the paging system: when they end, and that nothing else can happen. */
module PagingRuns {
  import opened Counting
  import opened PageTable
  import opened Memory
  import opened PagingSystem

  ghost predicate IsEnqueued(s: State, p: nat) {
    p < |s.procs| && s.procs[p].phase != Starting
  }

  ghost predicate AllEnqueued(s: State) {
    forall p :: 0 <= p < |s.procs| ==> s.procs[p].phase != Starting
  }

  // ------------------------------------------------------------ the ranking

  /** Processes in the order in which they will next be served. */
  ghost function Order(s: State, t: Token): seq<nat> {
    match t
    case AtScheduler => s.mq1
    case Raised(p) => [p] + s.mq1
    case Held(p) => [p] + s.mq1
    case InFlight(Requeue(p)) => s.mq1 + [p]
    case InFlight(Ended(_)) => s.mq1
  }

  /** How many processes without any page come before the first that has one. */
  ghost function Distance(rows: seq<Row>, order: seq<nat>): nat {
    if order == [] || (order[0] < |rows| && HasValid(rows[order[0]])) then 0
    else 1 + Distance(rows, order[1..])
  }

  ghost function RefCounts(s: State): seq<int> {
    seq(|s.procs|, p requires 0 <= p < |s.procs| => |s.procs[p].refs|)
  }

  /** Live processes that hold frames but not the page they are about to ask for. */
  ghost predicate AwaitsPage(s: State, p: nat)
    requires p < |s.procs| && p < |s.mem.rows|
  {
    && s.procs[p].phase != Gone && s.procs[p].refs != [] && HasValid(s.mem.rows[p])
    && s.procs[p].refs[0] < |s.mem.rows[p]| && !s.mem.rows[p][s.procs[p].refs[0]].valid
  }

  ghost function Unsettled(s: State): set<nat>
    requires |s.mem.rows| == |s.procs|
  {
    set p: nat | p < |s.procs| && AwaitsPage(s, p)
  }

  ghost function Hops(s: State, t: Token): nat {
    if s.sched == Released then 0
    else
      match t
      case InFlight(_) => 3
      case AtScheduler => 2
      case Raised(_) => 1
      case Held(_) => 0
  }

  datatype Rank = Rank(live: nat, refs: int, free: nat, unsettled: nat, distance: nat, hops: nat)

  ghost function RankOf(s: State, t: Token): Rank
    requires |s.mem.rows| == |s.procs|
  {
    Rank(|Live(s)|, Sum(RefCounts(s)), |FreeFrames(s.mem)|, |Unsettled(s)|,
         Distance(s.mem.rows, Order(s, t)), Hops(s, t))
  }

  ghost predicate Below(a: Rank, b: Rank) {
    || a.live < b.live
    || (a.live == b.live &&
        (|| a.refs < b.refs
         || (a.refs == b.refs &&
             (|| a.free < b.free
              || (a.free == b.free &&
                  (|| a.unsettled < b.unsettled
                   || (a.unsettled == b.unsettled &&
                       (|| a.distance < b.distance
                        || (a.distance == b.distance && a.hops < b.hops)))))))))
  }

  // ------------------------------------------------------------ who can finish

  /** The process asks for nothing more, or for a page that gets it terminated. */
  ghost predicate Quits(s: State, p: nat)
    requires p < |s.procs| && p < |s.mem.reqd|
  {
    s.procs[p].refs == [] || s.procs[p].refs[0] > s.mem.reqd[p]
  }

  ghost predicate CanFinish(s: State)
    requires |s.procs| == |s.mem.reqd|
  {
    |s.mem.free| >= 1 || forall p: nat :: p < |s.procs| && s.procs[p].phase != Gone ==> Quits(s, p)
  }

  lemma RowsAreEmptyWithoutFrames(mem: Memory, live: set<nat>, p: nat)
    requires Owned(mem, live) && p in live && |mem.free| == 0
    ensures !HasValid(mem.rows[p])
  {
    if HasValid(mem.rows[p]) {
      var i :| 0 <= i < |mem.rows[p]| && mem.rows[p][i].valid;
      assert Holds(mem, p, i, mem.rows[p][i].frame);
    }
  }

  lemma StepKeepsCanFinish(s: State, m: nat, t: Token, a: Action)
    requires Inv(s, m, t) && Enabled(s, a) && CanFinish(s)
    ensures CanFinish(Apply(s, m, a))
  {
    StepKeepsLimits(s, m, t, a);
    if |s.mem.free| == 0 {
      var s' := Apply(s, m, a);
      forall p: nat | p < |s'.procs| && s'.procs[p].phase != Gone
        ensures Quits(s', p)
      {
        StepKeepsQuitting(s, m, t, a, p);
      }
    }
  }

  /** No step changes how many processes and frames there are, or how many pages a process requires. */
  lemma StepKeepsLimits(s: State, m: nat, t: Token, a: Action)
    requires Inv(s, m, t) && Enabled(s, a)
    ensures var s' := Apply(s, m, a);
            |s'.procs| == |s.procs| && s'.mem.reqd == s.mem.reqd && |s'.mem.free| == |s.mem.free|
  {
    if a.Request? {
      RequestKeepsMemory(s, m, t, a.pid);
    }
  }

  /** Without frames, a process that is still there after its request has not moved on to another reference. */
  lemma StepKeepsQuitting(s: State, m: nat, t: Token, a: Action, p: nat)
    requires Inv(s, m, t) && Enabled(s, a) && |s.mem.free| == 0
    requires p < |s.procs| && (s.procs[p].phase != Gone ==> Quits(s, p))
    requires p < |Apply(s, m, a).procs| && Apply(s, m, a).procs[p].phase != Gone
    requires Apply(s, m, a).mem.reqd == s.mem.reqd
    ensures Quits(Apply(s, m, a), p)
  {
    if a.Request? && a.pid == p {
      RowsAreEmptyWithoutFrames(s.mem, Live(s), p);
    }
  }

  // ------------------------------------------------------------ every step descends

  lemma SchedulingDescends(s: State, m: nat, t: Token, a: Action)
    requires Inv(s, m, t) && Enabled(s, a)
    requires a.Dispatch? || a.Wake? || a.Hear? || a.Finish?
    ensures Below(RankOf(Apply(s, m, a), NextToken(s, m, t, a)), RankOf(s, t))
  {
    SchedulingKeepsCounts(s, m, a);
    SchedulingKeepsOrder(s, m, t, a);
  }

  lemma SchedulingKeepsCounts(s: State, m: nat, a: Action)
    requires Sized(s, m) && Enabled(s, a) && (a.Dispatch? || a.Wake? || a.Hear? || a.Finish?)
    ensures var s' := Apply(s, m, a);
            && s'.mem == s.mem && |s'.procs| == |s.procs|
            && Live(s') == Live(s) && RefCounts(s') == RefCounts(s) && Unsettled(s') == Unsettled(s)
  {
    var s' := Apply(s, m, a);
    assert forall p :: 0 <= p < |s.procs| ==>
             s'.procs[p].refs == s.procs[p].refs && (s'.procs[p].phase == Gone <==> s.procs[p].phase == Gone);
    assert RefCounts(s') == RefCounts(s);
  }

  lemma SchedulingKeepsOrder(s: State, m: nat, t: Token, a: Action)
    requires Inv(s, m, t) && Enabled(s, a) && (a.Dispatch? || a.Wake? || a.Hear? || a.Finish?)
    ensures var s', t' := Apply(s, m, a), NextToken(s, m, t, a);
            Order(s', t') == Order(s, t) && Hops(s', t') < Hops(s, t)
  {
    match a {
      case Dispatch =>
        assert s.mq1 == [s.mq1[0]] + s.mq1[1..];
      case Wake(p) =>
        WakeKeepsInv(s, m, t, p);
      case Hear =>
        HearKeepsInv(s, m, t);
        assert s.mq2 == [t.note];
      case Finish =>
    }
  }

  lemma EndingDescends(s: State, m: nat, t: Token, p: nat)
    requires Inv(s, m, t) && Enabled(s, Request(p)) && Quits(s, p)
    ensures |Live(Apply(s, m, Request(p)))| < |Live(s)|
  {
    assert Live(Apply(s, m, Request(p))) == Live(s) - {p};
  }

  lemma HitDescends(s: State, m: nat, t: Token, p: nat)
    requires Inv(s, m, t) && Enabled(s, Request(p)) && !Quits(s, p)
    requires s.mem.rows[p][s.procs[p].refs[0]].valid
    ensures var s' := Apply(s, m, Request(p));
            Live(s') == Live(s) && Sum(RefCounts(s')) < Sum(RefCounts(s))
  {
    var s' := Apply(s, m, Request(p));
    assert RefCounts(s') == RefCounts(s)[p := |s.procs[p].refs| - 1];
    SumOfUpdate(RefCounts(s), p, |s.procs[p].refs| - 1);
  }

  lemma FreeFaultDescends(s: State, m: nat, t: Token, p: nat)
    requires Inv(s, m, t) && Enabled(s, Request(p)) && !Quits(s, p)
    requires !s.mem.rows[p][s.procs[p].refs[0]].valid && FirstFree(s.mem.free) < |s.mem.free|
    ensures var s' := Apply(s, m, Request(p));
            Live(s') == Live(s) && RefCounts(s') == RefCounts(s) && |FreeFrames(s'.mem)| < |FreeFrames(s.mem)|
  {
    var s' := Apply(s, m, Request(p));
    assert FreeFrames(s'.mem) == FreeFrames(s.mem) - {FirstFree(s.mem.free)};
  }

  lemma ReplacementDescends(s: State, m: nat, t: Token, p: nat)
    requires Inv(s, m, t) && Enabled(s, Request(p)) && !Quits(s, p)
    requires !s.mem.rows[p][s.procs[p].refs[0]].valid && FirstFree(s.mem.free) == |s.mem.free|
    requires HasValid(s.mem.rows[p])
    ensures var s' := Apply(s, m, Request(p));
            && Live(s') == Live(s) && RefCounts(s') == RefCounts(s) && s'.mem.free == s.mem.free
            && |s'.mem.rows| == |s'.procs| && |Unsettled(s')| < |Unsettled(s)|
  {
    var s' := Apply(s, m, Request(p));
    VictimExists(s.mem, Live(s), p, s.procs[p].refs[0]);
    assert p in Unsettled(s);
    assert Unsettled(s') == Unsettled(s) - {p};
  }

  /** Somebody in the queue holds a frame when none is free. */
  lemma SomeoneHasPages(s: State, m: nat, t: Token) returns (q: nat)
    requires Inv(s, m, t) && AllEnqueued(s)
    requires FirstFree(s.mem.free) == |s.mem.free| && |s.mem.free| >= 1
    ensures q < |s.mem.rows| && HasValid(s.mem.rows[q]) && q in Order(s, t)
  {
    assert !s.mem.free[0];
    var i: nat;
    q, i :| q in Live(s) && Holds(s.mem, q, i, 0);
    assert s.procs[q].phase in {Blocked, Running};
    if q !in s.mq1 {
      assert OffQueue(t, q);
    }
  }

  lemma {:induction false} RotationGetsCloser(rows: seq<Row>, p: nat, rest: seq<nat>, q: nat)
    requires q in rest && q < |rows| && HasValid(rows[q])
    ensures Distance(rows, rest + [p]) == Distance(rows, rest)
    decreases |rest|
  {
    if !(rest[0] < |rows| && HasValid(rows[rest[0]])) {
      assert rest == [rest[0]] + rest[1..];
      RotationGetsCloser(rows, p, rest[1..], q);
      assert (rest + [p])[1..] == rest[1..] + [p];
    }
  }

  lemma StuckFaultDescends(s: State, m: nat, t: Token, p: nat)
    requires Inv(s, m, t) && AllEnqueued(s) && Enabled(s, Request(p)) && !Quits(s, p) && |s.mem.free| >= 1
    requires !s.mem.rows[p][s.procs[p].refs[0]].valid && FirstFree(s.mem.free) == |s.mem.free|
    requires !HasValid(s.mem.rows[p])
    ensures Below(RankOf(Apply(s, m, Request(p)), NextToken(s, m, t, Request(p))), RankOf(s, t))
  {
    var s' := Apply(s, m, Request(p));
    assert s'.mem == s.mem && Live(s') == Live(s) && RefCounts(s') == RefCounts(s) && Unsettled(s') == Unsettled(s);
    assert t == Held(p);
    var q := SomeoneHasPages(s, m, t);
    RotationGetsCloser(s.mem.rows, p, s.mq1, q);
    assert Order(s, t)[1..] == s.mq1;
    assert Order(s', NextToken(s, m, t, Request(p))) == s.mq1 + [p];
  }

  lemma RequestDescends(s: State, m: nat, t: Token, p: nat)
    requires Inv(s, m, t) && AllEnqueued(s) && CanFinish(s) && Enabled(s, Request(p))
    ensures Below(RankOf(Apply(s, m, Request(p)), NextToken(s, m, t, Request(p))), RankOf(s, t))
  {
    RequestKeepsInv(s, m, t, p);
    if Quits(s, p) {
      EndingDescends(s, m, t, p);
    } else if s.mem.rows[p][s.procs[p].refs[0]].valid {
      HitDescends(s, m, t, p);
    } else if FirstFree(s.mem.free) < |s.mem.free| {
      FreeFaultDescends(s, m, t, p);
    } else if HasValid(s.mem.rows[p]) {
      ReplacementDescends(s, m, t, p);
    } else {
      StuckFaultDescends(s, m, t, p);
    }
  }

  lemma StepKeepsEnqueued(s: State, m: nat, a: Action, p: nat)
    requires Sized(s, m) && Enabled(s, a) && IsEnqueued(s, p)
    ensures IsEnqueued(Apply(s, m, a), p)
  {
  }

  lemma StepKeepsAllEnqueued(s: State, m: nat, t: Token, a: Action)
    requires Inv(s, m, t) && Enabled(s, a) && AllEnqueued(s)
    ensures AllEnqueued(Apply(s, m, a))
  {
    StepKeepsShape(s, m, t, a);
    forall p | 0 <= p < |s.procs|
      ensures Apply(s, m, a).procs[p].phase != Starting
    {
      StepKeepsEnqueued(s, m, a, p);
    }
  }

  lemma StepKeepsShape(s: State, m: nat, t: Token, a: Action)
    requires Inv(s, m, t) && Enabled(s, a)
    ensures |Apply(s, m, a).mem.rows| == |Apply(s, m, a).procs| == |s.procs|
  {
    StepKeepsInv(s, m, t, a);
  }

  lemma StepDescends(s: State, m: nat, t: Token, a: Action)
    requires Inv(s, m, t) && AllEnqueued(s) && CanFinish(s) && Enabled(s, a)
    ensures |Apply(s, m, a).mem.rows| == |Apply(s, m, a).procs|
    ensures Below(RankOf(Apply(s, m, a), NextToken(s, m, t, a)), RankOf(s, t))
  {
    StepKeepsShape(s, m, t, a);
    if a.Request? {
      RequestDescends(s, m, t, a.pid);
    } else {
      SchedulingDescends(s, m, t, a);
    }
  }

  // ------------------------------------------------------------ runs

  /** A step of the system; after the release nothing moves. */
  ghost predicate Step(s: State, m: nat, s': State)
    requires Sized(s, m)
  {
    if s.sched == Released then s' == s
    else exists a :: Enabled(s, a) && s' == Apply(s, m, a)
  }

  ghost predicate StepAt(run: nat -> State, m: nat, i: nat) {
    Sized(run(i), m) ==> Step(run(i), m, run(i + 1))
  }

  /** A maximal run: until the release there is always a step. */
  ghost predicate Run(run: nat -> State, m: nat, t: Token) {
    Inv(run(0), m, t) && forall i: nat :: StepAt(run, m, i)
  }

  lemma {:induction false} EndsFrom(run: nat -> State, m: nat, i: nat, t: Token, r: Rank) returns (n: nat, u: Token)
    requires forall j: nat :: StepAt(run, m, j)
    requires Inv(run(i), m, t) && AllEnqueued(run(i)) && CanFinish(run(i)) && r == RankOf(run(i), t)
    ensures run(n).sched == Released && Inv(run(n), m, u)
    decreases r.live, r.refs, r.free, r.unsettled, r.distance, r.hops
  {
    if run(i).sched == Released {
      n, u := i, t;
    } else {
      assert StepAt(run, m, i);
      var a :| Enabled(run(i), a) && run(i + 1) == Apply(run(i), m, a);
      StepKeepsInv(run(i), m, t, a);
      StepKeepsCanFinish(run(i), m, t, a);
      StepDescends(run(i), m, t, a);
      StepKeepsAllEnqueued(run(i), m, t, a);
      RefCountsAreNonNegative(run(i));
      var t' := NextToken(run(i), m, t, a);
      n, u := EndsFrom(run, m, i + 1, t', RankOf(run(i + 1), t'));
    }
  }

  lemma RefCountsAreNonNegative(s: State)
    ensures Sum(RefCounts(s)) >= 0
  {
    SumOfNaturals(RefCounts(s));
  }

  /** Without frames, a process whose next reference is its own never gets past it. */
  lemma StarvationPersists(s: State, m: nat, t: Token, a: Action, p: nat)
    requires Inv(s, m, t) && Enabled(s, a) && |s.mem.free| == 0
    requires p < |s.procs| && s.procs[p].phase != Gone && !Quits(s, p)
    ensures var s' := Apply(s, m, a);
            && |s'.procs| == |s.procs| && |s'.mem.reqd| == |s.mem.reqd| && |s'.mem.free| == 0
            && s'.procs[p].phase != Gone && !Quits(s', p)
  {
    if a.Request? {
      RowsAreEmptyWithoutFrames(s.mem, Live(s), a.pid);
      RequestKeepsMemory(s, m, t, a.pid);
    }
  }

  lemma {:induction false} StarvedAt(run: nat -> State, m: nat, t: Token, p: nat, i: nat) returns (u: Token)
    requires Run(run, m, t) && |run(0).mem.free| == 0
    requires p < |run(0).procs| && run(0).procs[p].phase != Gone && !Quits(run(0), p)
    ensures Inv(run(i), m, u) && |run(i).mem.free| == 0
    ensures p < |run(i).procs| && run(i).procs[p].phase != Gone && !Quits(run(i), p)
    ensures run(i).sched != Released
  {
    if i == 0 {
      u := t;
    } else {
      u := StarvedAt(run, m, t, p, i - 1);
      assert StepAt(run, m, i - 1);
      var a :| Enabled(run(i - 1), a) && run(i) == Apply(run(i - 1), m, a);
      StepKeepsInv(run(i - 1), m, u, a);
      StarvationPersists(run(i - 1), m, u, a, p);
      u := NextToken(run(i - 1), m, u, a);
    }
    if run(i).sched == Released {
      ReleasedMeansAllDone(run(i), m, u);
    }
  }

  lemma {:induction false} InvAlongRun(run: nat -> State, m: nat, t: Token, i: nat) returns (u: Token)
    requires Run(run, m, t)
    ensures Inv(run(i), m, u) && |run(i).procs| == |run(0).procs|
    ensures CanFinish(run(0)) ==> CanFinish(run(i))
  {
    if i == 0 {
      u := t;
    } else {
      u := InvAlongRun(run, m, t, i - 1);
      assert StepAt(run, m, i - 1);
      if run(i - 1).sched != Released {
        var a :| Enabled(run(i - 1), a) && run(i) == Apply(run(i - 1), m, a);
        StepKeepsInv(run(i - 1), m, u, a);
        if CanFinish(run(0)) {
          StepKeepsCanFinish(run(i - 1), m, u, a);
        }
        u := NextToken(run(i - 1), m, u, a);
      }
    }
  }

  // ------------------------------------------------------------ everybody enqueues

  /** The process gets as far as its first message. */
  ghost predicate Enqueues(run: nat -> State, p: nat) {
    exists i :: IsEnqueued(run(i), p)
  }

  ghost predicate EveryoneEnqueues(run: nat -> State) {
    forall p: nat :: p < |run(0).procs| ==> Enqueues(run, p)
  }

  lemma {:induction false} StaysEnqueued(run: nat -> State, m: nat, t: Token, p: nat, i: nat, j: nat)
    requires Run(run, m, t) && i <= j && IsEnqueued(run(i), p)
    ensures IsEnqueued(run(j), p)
    decreases j
  {
    if i < j {
      StaysEnqueued(run, m, t, p, i, j - 1);
      var u := InvAlongRun(run, m, t, j - 1);
      assert StepAt(run, m, j - 1);
      if run(j - 1).sched != Released {
        var a :| Enabled(run(j - 1), a) && run(j) == Apply(run(j - 1), m, a);
        StepKeepsEnqueued(run(j - 1), m, a, p);
      }
    }
  }

  lemma {:induction false} FirstOnesEnqueued(run: nat -> State, m: nat, t: Token, n: nat) returns (i: nat)
    requires Run(run, m, t) && EveryoneEnqueues(run) && n <= |run(0).procs|
    ensures forall p: nat :: p < n ==> IsEnqueued(run(i), p)
  {
    if n == 0 {
      i := 0;
    } else {
      var j := FirstOnesEnqueued(run, m, t, n - 1);
      assert Enqueues(run, n - 1);
      var k :| IsEnqueued(run(k), n - 1);
      i := if j < k then k else j;
      forall p: nat | p < n
        ensures IsEnqueued(run(i), p)
      {
        StaysEnqueued(run, m, t, p, if p == n - 1 then k else j, i);
      }
    }
  }

  lemma ReleasesWhenItCan(run: nat -> State, m: nat, t: Token) returns (n: nat)
    requires Run(run, m, t) && CanFinish(run(0)) && EveryoneEnqueues(run)
    ensures run(n).sched == Released
  {
    var i := FirstOnesEnqueued(run, m, t, |run(0).procs|);
    var u := InvAlongRun(run, m, t, i);
    forall p | 0 <= p < |run(i).procs|
      ensures run(i).procs[p].phase != Starting
    {
      assert IsEnqueued(run(i), p);
    }
    var v;
    n, v := EndsFrom(run, m, i, u, RankOf(run(i), u));
  }

  lemma ReleasedAtTheEnd(run: nat -> State, m: nat, t: Token, n: nat)
    requires Run(run, m, t) && run(n).sched == Released
    ensures forall p :: 0 <= p < |run(n).procs| ==> run(n).procs[p].phase == Gone
    ensures forall g :: 0 <= g < |run(n).mem.free| ==> run(n).mem.free[g]
    ensures CanFinish(run(0)) && EveryoneEnqueues(run)
  {
    var u := InvAlongRun(run, m, t, n);
    ReleasedMeansAllDone(run(n), m, u);
    forall p: nat | p < |run(0).procs|
      ensures Enqueues(run, p)
    {
      assert IsEnqueued(run(n), p);
    }
    if !CanFinish(run(0)) {
      var p: nat :| p < |run(0).procs| && run(0).procs[p].phase != Gone && !Quits(run(0), p);
      var v := StarvedAt(run, m, t, p, n);
      assert false;
    }
  }

  /**
   A run releases the master if and only if every process gets as far as enqueueing itself and either
   there is a frame at all or every process quits without needing one; at the release all processes
   are gone and all frames free.
   */
  lemma RunEndsExactlyWhenItCan(run: nat -> State, m: nat, t: Token)
    requires Run(run, m, t)
    ensures CanFinish(run(0)) && EveryoneEnqueues(run) <==> exists n :: run(n).sched == Released
    ensures forall n, p :: run(n).sched == Released && 0 <= p < |run(n).procs| ==> run(n).procs[p].phase == Gone
    ensures forall n, g :: run(n).sched == Released && 0 <= g < |run(n).mem.free| ==> run(n).mem.free[g]
  {
    if CanFinish(run(0)) && EveryoneEnqueues(run) {
      var n := ReleasesWhenItCan(run, m, t);
    }
    forall n | run(n).sched == Released
      ensures forall p :: 0 <= p < |run(n).procs| ==> run(n).procs[p].phase == Gone
      ensures forall g :: 0 <= g < |run(n).mem.free| ==> run(n).mem.free[g]
      ensures CanFinish(run(0)) && EveryoneEnqueues(run)
    {
      ReleasedAtTheEnd(run, m, t, n);
    }
  }

  /** From the master's layout with f >= 1 frames, whoever is slow to enqueue, every run ends with all frames free. */
  lemma LaidOutSystemEnds(run: nat -> State, m: nat) returns (n: nat)
    requires LaidOut(run(0), m) && |run(0).mem.free| >= 1 && EveryoneEnqueues(run)
    requires forall i: nat :: StepAt(run, m, i)
    ensures run(n).sched == Released
    ensures forall p :: 0 <= p < |run(n).procs| ==> run(n).procs[p].phase == Gone
    ensures forall g :: 0 <= g < |run(n).mem.free| ==> run(n).mem.free[g]
  {
    LayoutHasInvariant(run(0), m);
    n := ReleasesWhenItCan(run, m, AtScheduler);
    ReleasedAtTheEnd(run, m, AtScheduler, n);
  }
}
