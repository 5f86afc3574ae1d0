/**
 Scheduler, MMU and processes as one state machine.

 A request and its reply on the third queue are one step; everything else (the ready
 queue, the notification queue, the per-process semaphores) is interleaved freely.
 */
module PagingSystem {
  import opened Counting
  import opened PageTable
  import opened Memory
  import Master

  /** Where a process is: before its first message, blocked on its semaphore, on the CPU, or exited. */
  datatype Phase = Starting | Blocked | Running | Gone

  /** `refs` is what is left of the reference string. */
  datatype Proc = Proc(phase: Phase, refs: seq<nat>)

  /** The scheduler is at its loop head, waiting on mq2, or past its loop with the master released. */
  datatype Scheduler = LoopHead | Listening | Released

  datatype State = State(mem: Memory, procs: seq<Proc>, sems: seq<nat>, mq1: seq<nat>, mq2: seq<Note>,
                         sched: Scheduler, terminated: nat)

  datatype Action = Enqueue(pid: nat) | Dispatch | Wake(pid: nat) | Request(pid: nat) | Hear | Finish

  function NextPage(proc: Proc): int {
    if proc.refs == [] then CLOSING else proc.refs[0]
  }

  ghost predicate Sized(s: State, m: nat) {
    && |s.sems| == |s.procs| && Shaped(s.mem, |s.procs|, m)
    && forall p, i :: 0 <= p < |s.procs| && 0 <= i < |s.procs[p].refs| ==> Admissible(s.mem, m, p, s.procs[p].refs[i])
  }

  ghost predicate Enabled(s: State, a: Action) {
    match a
    case Enqueue(p) => p < |s.procs| && s.procs[p].phase == Starting
    case Dispatch => s.sched == LoopHead && s.terminated < |s.procs| && s.mq1 != [] && s.mq1[0] < |s.sems|
    case Wake(p) => p < |s.procs| && p < |s.sems| && s.procs[p].phase == Blocked && s.sems[p] > 0
    case Request(p) => p < |s.procs| && s.procs[p].phase == Running
    case Hear => s.sched == Listening && s.mq2 != []
    case Finish => s.sched == LoopHead && s.terminated >= |s.procs|
  }

  function AfterReply(proc: Proc, reply: Reply): Proc {
    match reply
    case Frame(_) => Proc(Running, if proc.refs == [] then [] else proc.refs[1..])
    case Fault => Proc(Blocked, proc.refs)
    case Illegal => Proc(Gone, [])
    case Silent => Proc(Gone, [])
  }

  function ServeRequest(s: State, p: nat): State
    requires p < |s.procs| && p < |s.mem.rows| && p < |s.mem.reqd|
    requires var page := NextPage(s.procs[p]);
             page == CLOSING || 0 <= page < |s.mem.rows[p]| || page > s.mem.reqd[p]
  {
    var o := Serve(s.mem, p, NextPage(s.procs[p]));
    s.(mem := o.mem,
       procs := s.procs[p := AfterReply(s.procs[p], o.reply)],
       mq2 := if o.told.Told? then s.mq2 + [o.told.note] else s.mq2)
  }

  ghost function Apply(s: State, m: nat, a: Action): State
    requires Sized(s, m) && Enabled(s, a)
  {
    match a
    case Enqueue(p) => s.(procs := s.procs[p := Proc(Blocked, s.procs[p].refs)], mq1 := s.mq1 + [p])
    case Dispatch => s.(mq1 := s.mq1[1..], sems := s.sems[s.mq1[0] := s.sems[s.mq1[0]] + 1], sched := Listening)
    case Wake(p) => s.(procs := s.procs[p := Proc(Running, s.procs[p].refs)], sems := s.sems[p := s.sems[p] - 1])
    case Request(p) => ServeRequest(s, p)
    case Hear =>
      (match s.mq2[0]
       case Requeue(p) => s.(mq1 := s.mq1 + [p], mq2 := s.mq2[1..], sched := LoopHead)
       case Ended(_) => s.(terminated := s.terminated + 1, mq2 := s.mq2[1..], sched := LoopHead))
    case Finish => s.(sched := Released)
  }

  // ------------------------------------------------------------ the CPU token

  /** The one place the right to run can be. */
  datatype Token = AtScheduler | Raised(pid: nat) | Held(pid: nat) | InFlight(note: Note)

  /** Nobody but the holder named by t shows any sign of the token. */
  ghost predicate TokenAt(s: State, t: Token) {
    && (s.sched != Listening <==> t == AtScheduler)
    && (forall q :: 0 <= q < |s.sems| ==> s.sems[q] == if t == Raised(q) then 1 else 0)
    && (forall q :: 0 <= q < |s.procs| ==> (s.procs[q].phase == Running <==> t == Held(q)))
    && s.mq2 == (if t.InFlight? then [t.note] else [])
    && (t.Raised? || t.Held? ==> t.pid < |s.procs|)
    && (t.InFlight? ==> t.note.pid < |s.procs|)
  }

  /** At most one holder: two tokens in one state would be the same token. */
  lemma TokenIsUnique(s: State, t: Token, u: Token)
    requires |s.sems| == |s.procs| && TokenAt(s, t) && TokenAt(s, u)
    ensures t == u
  {
    if t.Raised? {
      assert s.sems[t.pid] == 1;
    } else if t.Held? {
      assert s.procs[t.pid].phase == Running;
    }
  }

  /** The process named by the token, if it is still in the game and not in the ready queue. */
  ghost predicate OffQueue(t: Token, q: nat) {
    t == Raised(q) || t == Held(q) || t == InFlight(Requeue(q))
  }

  /** A live, enqueued process is in the ready queue once or is the token's process. */
  ghost predicate Queued(s: State, t: Token) {
    && (forall i, j :: 0 <= i < j < |s.mq1| ==> s.mq1[i] != s.mq1[j])
    && (forall q :: q in s.mq1 ==> q < |s.procs|)
    && (forall q: nat :: q < |s.procs| ==>
          (q in s.mq1 <==> s.procs[q].phase == Blocked && !OffQueue(t, q)))
    && (forall q: nat :: q < |s.procs| && OffQueue(t, q) ==> s.procs[q].phase in {Blocked, Running})
    && (t.InFlight? && t.note.Ended? && t.note.pid < |s.procs| ==> s.procs[t.note.pid].phase == Gone)
  }

  ghost function Departed(s: State): set<nat> {
    set p: nat | p < |s.procs| && s.procs[p].phase == Gone
  }

  ghost function Live(s: State): set<nat> {
    set p: nat | p < |s.procs| && s.procs[p].phase != Gone
  }

  /** The termination counter is the number of exited processes whose notice has been heard. */
  ghost predicate Counted(s: State, t: Token) {
    && s.terminated + (if t.InFlight? && t.note.Ended? then 1 else 0) == |Departed(s)|
    && (s.sched == Released ==> s.terminated == |s.procs|)
  }

  ghost predicate Inv(s: State, m: nat, t: Token) {
    Sized(s, m) && TokenAt(s, t) && Queued(s, t) && Counted(s, t) && Owned(s.mem, Live(s))
  }

  ghost predicate Start(s: State, m: nat) {
    && Sized(s, m) && Owned(s.mem, Range(|s.procs|))
    && (forall p :: 0 <= p < |s.procs| ==> s.procs[p].phase == Starting && s.sems[p] == 0)
    && s.mq1 == [] && s.mq2 == [] && s.sched == LoopHead && s.terminated == 0
  }

  lemma StartHasInvariant(s: State, m: nat)
    requires Start(s, m)
    ensures Inv(s, m, AtScheduler)
  {
    assert Live(s) == Range(|s.procs|);
    assert Departed(s) == {};
    StartIsQuiet(s, m);
  }

  lemma StartIsQuiet(s: State, m: nat)
    requires Start(s, m)
    ensures TokenAt(s, AtScheduler) && Queued(s, AtScheduler)
  {
  }

  /** The state the master leaves: its layout in memory, and nothing in any queue yet. */
  ghost predicate LaidOut(s: State, m: nat) {
    && Sized(s, m) && Master.Initial(s.mem, m)
    && (forall p :: 0 <= p < |s.procs| ==> s.procs[p].phase == Starting && s.sems[p] == 0)
    && s.mq1 == [] && s.mq2 == [] && s.sched == LoopHead && s.terminated == 0
  }

  /** The master's layout is a proper start. */
  lemma LayoutHasInvariant(s: State, m: nat)
    requires LaidOut(s, m)
    ensures Inv(s, m, AtScheduler)
  {
    Master.InitialIsOwned(s.mem, m);
    StartHasInvariant(s, m);
  }

  // ------------------------------------------------------------ every step keeps the invariant

  ghost function NextToken(s: State, m: nat, t: Token, a: Action): Token
    requires Sized(s, m) && Enabled(s, a)
  {
    match a
    case Enqueue(_) => t
    case Dispatch => Raised(s.mq1[0])
    case Wake(p) => Held(p)
    case Request(p) =>
      var o := Serve(s.mem, p, NextPage(s.procs[p]));
      if o.told.Told? then InFlight(o.told.note) else t
    case Hear => AtScheduler
    case Finish => AtScheduler
  }

  lemma EnqueueKeepsInv(s: State, m: nat, t: Token, p: nat)
    requires Inv(s, m, t) && Enabled(s, Enqueue(p))
    ensures Inv(Apply(s, m, Enqueue(p)), m, t)
  {
    var s' := Apply(s, m, Enqueue(p));
    assert Live(s') == Live(s) && Departed(s') == Departed(s);
    assert p !in s.mq1;
  }

  lemma DispatchKeepsInv(s: State, m: nat, t: Token)
    requires Inv(s, m, t) && Enabled(s, Dispatch)
    ensures Inv(Apply(s, m, Dispatch), m, Raised(s.mq1[0]))
  {
    var s' := Apply(s, m, Dispatch);
    assert Live(s') == Live(s) && Departed(s') == Departed(s);
    assert forall q :: q in s.mq1 <==> q == s.mq1[0] || q in s'.mq1;
  }

  lemma WakeKeepsInv(s: State, m: nat, t: Token, p: nat)
    requires Inv(s, m, t) && Enabled(s, Wake(p))
    ensures t == Raised(p) && Inv(Apply(s, m, Wake(p)), m, Held(p))
  {
    var s' := Apply(s, m, Wake(p));
    assert Live(s') == Live(s) && Departed(s') == Departed(s);
  }

  lemma RequestKeepsMemory(s: State, m: nat, t: Token, p: nat)
    requires Inv(s, m, t) && Enabled(s, Request(p))
    ensures var s' := Apply(s, m, Request(p));
            Sized(s', m) && Owned(s'.mem, Live(s')) && s'.mem.reqd == s.mem.reqd && |s'.mem.free| == |s.mem.free|
  {
    var s' := Apply(s, m, Request(p));
    var page := NextPage(s.procs[p]);
    var o := Serve(s.mem, p, page);
    ServeKeepsOwned(s.mem, Live(s), m, p, page);
    assert Live(s') == Survivors(Live(s), o.told);
    forall q, i | 0 <= q < |s'.procs| && 0 <= i < |s'.procs[q].refs|
      ensures Admissible(s'.mem, m, q, s'.procs[q].refs[i])
    {
      assert s'.procs[q].refs[i] == s.procs[q].refs[i] || s'.procs[q].refs[i] == s.procs[q].refs[i + 1];
    }
  }

  lemma RequestMovesToken(s: State, m: nat, t: Token, p: nat)
    requires Inv(s, m, t) && Enabled(s, Request(p))
    ensures t == Held(p)
    ensures TokenAt(Apply(s, m, Request(p)), NextToken(s, m, t, Request(p)))
  {
    assert s.procs[p].phase == Running;
    assert Admissible(s.mem, m, p, NextPage(s.procs[p]));
    RunsOnExactlyWhenServed(s, p);
  }

  /** The process stays on the CPU exactly when the scheduler is not told anything. */
  lemma RunsOnExactlyWhenServed(s: State, p: nat)
    requires p < |s.procs| && p < |s.mem.rows| && p < |s.mem.reqd|
    requires var page := NextPage(s.procs[p]);
             page == CLOSING || 0 <= page < |s.mem.rows[p]| || page > s.mem.reqd[p]
    ensures var s', told := ServeRequest(s, p), Serve(s.mem, p, NextPage(s.procs[p])).told;
            && s'.sems == s.sems && s'.sched == s.sched && |s'.procs| == |s.procs|
            && (forall q :: 0 <= q < |s.procs| && q != p ==> s'.procs[q] == s.procs[q])
            && s'.mq2 == s.mq2 + (if told.Told? then [told.note] else [])
            && (told.Told? ==> told.note.pid == p)
            && (s'.procs[p].phase == Running <==> told.NoNote?)
  {
  }

  lemma RequestKeepsQueued(s: State, m: nat, t: Token, p: nat)
    requires Inv(s, m, t) && Enabled(s, Request(p))
    ensures Queued(Apply(s, m, Request(p)), NextToken(s, m, t, Request(p)))
  {
    assert t == Held(p) && p !in s.mq1;
  }

  lemma RequestKeepsCounted(s: State, m: nat, t: Token, p: nat)
    requires Inv(s, m, t) && Enabled(s, Request(p))
    ensures Counted(Apply(s, m, Request(p)), NextToken(s, m, t, Request(p)))
  {
    var s' := Apply(s, m, Request(p));
    var o := Serve(s.mem, p, NextPage(s.procs[p]));
    EndsExactlyWhenTold(s, p);
    if o.told.Told? && o.told.note.Ended? {
      assert Departed(s') == Departed(s) + {p};
    } else {
      assert Departed(s') == Departed(s);
    }
  }

  /** A process is gone after a request exactly when the scheduler is told that it ended. */
  lemma EndsExactlyWhenTold(s: State, p: nat)
    requires p < |s.procs| && p < |s.mem.rows| && p < |s.mem.reqd|
    requires var page := NextPage(s.procs[p]);
             page == CLOSING || 0 <= page < |s.mem.rows[p]| || page > s.mem.reqd[p]
    ensures var o := Serve(s.mem, p, NextPage(s.procs[p]));
            && ServeRequest(s, p).procs == s.procs[p := AfterReply(s.procs[p], o.reply)]
            && (AfterReply(s.procs[p], o.reply).phase == Gone <==> o.told.Told? && o.told.note.Ended?)
  {
  }

  /** A page that is answered with a frame is the first of those left, and the others are left after it. */
  lemma AnswerTakesFirstReference(s: State, m: nat, p: nat)
    requires Sized(s, m) && Enabled(s, Request(p))
    ensures var page, s' := NextPage(s.procs[p]), Apply(s, m, Request(p));
            match Serve(s.mem, p, page).reply
            case Frame(_) =>
              page >= 0 && s.procs[p].refs == [page] + s'.procs[p].refs && s'.procs[p].phase == Running
            case Fault => s'.procs[p].refs == s.procs[p].refs && s'.procs[p].phase == Blocked
            case Illegal => s.procs[p].refs != [] && page == s.procs[p].refs[0] && s'.procs[p].phase == Gone
            case Silent => s.procs[p].refs == [] && s'.procs[p].phase == Gone
  {
    if s.procs[p].refs != [] {
      assert Admissible(s.mem, m, p, s.procs[p].refs[0]);
      assert s.procs[p].refs == [s.procs[p].refs[0]] + s.procs[p].refs[1..];
    }
  }

  /** A request keeps the invariant, and a process that stays has moved on by the page served, if one was. */
  lemma RequestKeepsInv(s: State, m: nat, t: Token, p: nat)
    requires Inv(s, m, t) && Enabled(s, Request(p))
    ensures Inv(Apply(s, m, Request(p)), m, NextToken(s, m, t, Request(p)))
    ensures var page, proc, proc' := NextPage(s.procs[p]), s.procs[p], Apply(s, m, Request(p)).procs[p];
            if Serve(s.mem, p, page).reply.Frame? then proc.refs == [page] + proc'.refs
            else proc'.phase == Gone || proc'.refs == proc.refs
  {
    AnswerTakesFirstReference(s, m, p);
    RequestKeepsMemory(s, m, t, p);
    RequestMovesToken(s, m, t, p);
    RequestKeepsQueued(s, m, t, p);
    RequestKeepsCounted(s, m, t, p);
  }

  lemma HearKeepsInv(s: State, m: nat, t: Token)
    requires Inv(s, m, t) && Enabled(s, Hear)
    ensures t == InFlight(s.mq2[0]) && Inv(Apply(s, m, Hear), m, AtScheduler)
  {
    var s' := Apply(s, m, Hear);
    assert Live(s') == Live(s) && Departed(s') == Departed(s);
    assert s.mq2 == [t.note];
    if t.note.Requeue? {
      assert OffQueue(t, t.note.pid) && t.note.pid !in s.mq1;
    }
  }

  lemma FinishKeepsInv(s: State, m: nat, t: Token)
    requires Inv(s, m, t) && Enabled(s, Finish)
    ensures Inv(Apply(s, m, Finish), m, AtScheduler)
  {
    var s' := Apply(s, m, Finish);
    assert Live(s') == Live(s) && Departed(s') == Departed(s);
    assert Departed(s) <= Range(|s.procs|);
    SubsetIsNoLarger(Departed(s), Range(|s.procs|));
  }

  lemma StepKeepsInv(s: State, m: nat, t: Token, a: Action)
    requires Inv(s, m, t) && Enabled(s, a)
    ensures Inv(Apply(s, m, a), m, NextToken(s, m, t, a))
    ensures |Apply(s, m, a).procs| == |s.procs|
  {
    match a
    case Enqueue(p) => EnqueueKeepsInv(s, m, t, p);
    case Dispatch => DispatchKeepsInv(s, m, t);
    case Wake(p) => WakeKeepsInv(s, m, t, p);
    case Request(p) => RequestKeepsInv(s, m, t, p);
    case Hear => HearKeepsInv(s, m, t);
    case Finish => FinishKeepsInv(s, m, t);
  }

  /** The master is released only after every process has exited, and then every frame is free. */
  lemma ReleasedMeansAllDone(s: State, m: nat, t: Token)
    requires Inv(s, m, t) && s.sched == Released
    ensures forall p :: 0 <= p < |s.procs| ==> s.procs[p].phase == Gone
    ensures forall g :: 0 <= g < |s.mem.free| ==> s.mem.free[g]
  {
    assert Departed(s) <= Range(|s.procs|);
    SubsetIsNoLarger(Departed(s), Range(|s.procs|));
    forall p: nat | p < |s.procs|
      ensures s.procs[p].phase == Gone
    {
      assert p in Range(|s.procs|);
    }
    assert Live(s) == {};
    AllFreeAtTheEnd(s.mem);
  }

  /** No reachable state before the release is stuck. */
  lemma NoDeadlock(s: State, m: nat, t: Token) returns (a: Action)
    requires Inv(s, m, t) && s.sched != Released
    ensures Enabled(s, a)
  {
    match t
    case Raised(p) => a := Wake(p);
    case Held(p) => a := Request(p);
    case InFlight(_) => a := Hear;
    case AtScheduler =>
      if s.terminated >= |s.procs| {
        a := Finish;
      } else if s.mq1 != [] {
        assert s.mq1[0] in s.mq1;
        a := Dispatch;
      } else {
        if Range(|s.procs|) <= Departed(s) {
          SubsetIsNoLarger(Range(|s.procs|), Departed(s));
        }
        var p: nat :| p < |s.procs| && p !in Departed(s);
        assert s.procs[p].phase == Starting;
        a := Enqueue(p);
      }
  }
}
