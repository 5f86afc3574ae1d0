/**
 What each process gets over a whole run: its own references one after the other, and the CPU in the
 order in which processes have queued for it.
 */
module PagingServed {
  import opened PageTable
  import opened Memory
  import opened PagingSystem
  import opened PagingRuns

  // ------------------------------------------------------------ one request

  /** No other step, and nobody else's request, touches the references that are left or ends the process. */
  lemma OthersLeaveReferences(s: State, m: nat, a: Action, p: nat)
    requires Sized(s, m) && Enabled(s, a) && p < |s.procs| && a != Request(p)
    ensures var s' := Apply(s, m, a);
            |s'.procs| == |s.procs| && s'.procs[p].refs == s.procs[p].refs
            && (s'.procs[p].phase == Gone <==> s.procs[p].phase == Gone)
  {
  }

  // ------------------------------------------------------------ runs with their actions

  ghost predicate TakenAt(run: nat -> State, acts: nat -> Action, m: nat, i: nat) {
    Sized(run(i), m) ==>
      if run(i).sched == Released then run(i + 1) == run(i)
      else Enabled(run(i), acts(i)) && run(i + 1) == Apply(run(i), m, acts(i))
  }

  /** The run is what these actions do. */
  ghost predicate Follows(run: nat -> State, acts: nat -> Action, m: nat) {
    forall i: nat :: TakenAt(run, acts, m, i)
  }

  ghost function SomeAction(run: nat -> State, m: nat, i: nat): Action
    requires StepAt(run, m, i)
  {
    if Sized(run(i), m) && run(i).sched != Released then
      var a :| Enabled(run(i), a) && run(i + 1) == Apply(run(i), m, a);
      a
    else Dispatch
  }

  /** Every run has actions. */
  lemma RunHasActions(run: nat -> State, m: nat, t: Token) returns (acts: nat -> Action)
    requires Run(run, m, t)
    ensures Follows(run, acts, m)
  {
    acts := (i: nat) requires StepAt(run, m, i) => SomeAction(run, m, i);
  }

  /** The pages that p has been answered with a frame for in the first n steps, in order. */
  ghost function ServedTo(run: nat -> State, acts: nat -> Action, m: nat, p: nat, n: nat): seq<int> {
    if n == 0 then []
    else
      ServedTo(run, acts, m, p, n - 1) + ServedIn(run(n - 1), acts(n - 1), m, p)
  }

  ghost function ServedIn(s: State, a: Action, m: nat, p: nat): seq<int> {
    if Sized(s, m) && s.sched != Released && Enabled(s, a) && a == Request(p)
       && Serve(s.mem, p, NextPage(s.procs[p])).reply.Frame?
    then [NextPage(s.procs[p])] else []
  }
  // ------------------------------------------------------------ what is served over a run

  ghost predicate Legal(pages: seq<int>, limit: int) {
    forall k :: 0 <= k < |pages| ==> pages[k] <= limit
  }

  /** As long as the process is there, what it has got and what is left are its references in order. */
  ghost predicate InOrder(proc: Proc, served: seq<int>, refs: seq<int>, limit: int) {
    && Legal(served, limit) && served <= refs
    && (proc.phase != Gone ==> served + proc.refs == refs)
    && (proc.phase == Gone ==> served == refs || refs[|served|] > limit)
  }

  lemma RequestStaysInOrder(s: State, m: nat, p: nat, served: seq<int>, refs: seq<int>)
    requires Sized(s, m) && s.sched != Released && Enabled(s, Request(p))
    requires InOrder(s.procs[p], served, refs, s.mem.reqd[p])
    ensures |Apply(s, m, Request(p)).procs| == |s.procs|
    ensures InOrder(Apply(s, m, Request(p)).procs[p], served + ServedIn(s, Request(p), m, p), refs, s.mem.reqd[p])
  {
    AnswerTakesFirstReference(s, m, p);
    var page, s' := NextPage(s.procs[p]), Apply(s, m, Request(p));
    if Serve(s.mem, p, page).reply.Frame? {
      assert served + [page] + s'.procs[p].refs == refs;
      assert (served + [page] + s'.procs[p].refs)[..|served| + 1] == served + [page];
    } else {
      assert served + [] == served;
      if s.procs[p].refs == [] {
        assert served + s.procs[p].refs == served;
      } else {
        assert refs[|served|] == s.procs[p].refs[0];
      }
    }
  }

  lemma StepStaysInOrder(s: State, m: nat, a: Action, p: nat, served: seq<int>, refs: seq<int>)
    requires Sized(s, m) && s.sched != Released && Enabled(s, a) && p < |s.procs|
    requires InOrder(s.procs[p], served, refs, s.mem.reqd[p])
    ensures |Apply(s, m, a).procs| == |s.procs|
    ensures InOrder(Apply(s, m, a).procs[p], served + ServedIn(s, a, m, p), refs, s.mem.reqd[p])
  {
    if a == Request(p) {
      RequestStaysInOrder(s, m, p, served, refs);
    } else {
      OthersLeaveReferences(s, m, a, p);
      assert served + ServedIn(s, a, m, p) == served;
    }
  }

  lemma TakenStaysInOrder(s: State, a: Action, s': State, m: nat, t: Token, p: nat, served: seq<int>, refs: seq<int>)
    returns (u: Token)
    requires Inv(s, m, t) && p < |s.procs| && InOrder(s.procs[p], served, refs, s.mem.reqd[p])
    requires if s.sched == Released then s' == s else Enabled(s, a) && s' == Apply(s, m, a)
    ensures Inv(s', m, u) && |s'.procs| == |s.procs| && s'.mem.reqd == s.mem.reqd
    ensures InOrder(s'.procs[p], served + ServedIn(s, a, m, p), refs, s.mem.reqd[p])
  {
    if s.sched == Released {
      u := t;
      assert served + ServedIn(s, a, m, p) == served;
    } else {
      StepStaysInOrder(s, m, a, p, served, refs);
      StepKeepsInv(s, m, t, a);
      StepKeepsLimits(s, m, t, a);
      u := NextToken(s, m, t, a);
    }
  }

  /** Over any run the pages served to p, followed by those it has still to ask for, are its references in order. */
  lemma {:induction false} ServedAlongRun(run: nat -> State, acts: nat -> Action, m: nat, t: Token, p: nat, n: nat)
    returns (u: Token)
    requires Inv(run(0), m, t) && Follows(run, acts, m) && p < |run(0).procs| && run(0).procs[p].phase != Gone
    ensures Inv(run(n), m, u) && |run(n).procs| == |run(0).procs| && run(n).mem.reqd == run(0).mem.reqd
    ensures InOrder(run(n).procs[p], ServedTo(run, acts, m, p, n), run(0).procs[p].refs, run(0).mem.reqd[p])
  {
    if n == 0 {
      u := t;
      assert [] + run(0).procs[p].refs == run(0).procs[p].refs;
    } else {
      u := ServedAlongRun(run, acts, m, t, p, n - 1);
      assert TakenAt(run, acts, m, n - 1);
      u := TakenStaysInOrder(run(n - 1), acts(n - 1), run(n), m, u, p,
                             ServedTo(run, acts, m, p, n - 1), run(0).procs[p].refs);
    }
  }

  /**
   By the release every process has been served its references in order, all of them unless one is beyond
   its limit, and then exactly those before the first such.
   */
  lemma ReferencesAreServedInOrder(run: nat -> State, acts: nat -> Action, m: nat, t: Token, p: nat, n: nat)
    requires Inv(run(0), m, t) && Follows(run, acts, m) && p < |run(0).procs| && run(0).procs[p].phase != Gone
    requires run(n).sched == Released
    ensures var served, refs, limit := ServedTo(run, acts, m, p, n), run(0).procs[p].refs, run(0).mem.reqd[p];
            && served <= refs && Legal(served, limit)
            && (if Legal(refs, limit) then served == refs
                else |served| < |refs| && refs[|served|] > limit)
  {
    var u := ServedAlongRun(run, acts, m, t, p, n);
    ReleasedMeansAllDone(run(n), m, u);
  }
  // ------------------------------------------------------------ first come, first served

  /** Whoever joins the ready queue in this step: at its first message, or when the scheduler hears of its fault. */
  ghost function JoinsIn(s: State, a: Action): seq<nat> {
    if s.sched == Released then []
    else
      match a
      case Enqueue(p) => [p]
      case Hear => if s.mq2 != [] && s.mq2[0].Requeue? then [s.mq2[0].pid] else []
      case Dispatch => []
      case Wake(_) => []
      case Request(_) => []
      case Finish => []
  }

  /** Whoever gets past its semaphore in this step. */
  ghost function WakesIn(s: State, a: Action): seq<nat> {
    if s.sched != Released && a.Wake? then [a.pid] else []
  }

  ghost function Joined(run: nat -> State, acts: nat -> Action, n: nat): seq<nat> {
    if n == 0 then [] else Joined(run, acts, n - 1) + JoinsIn(run(n - 1), acts(n - 1))
  }

  ghost function Woken(run: nat -> State, acts: nat -> Action, n: nat): seq<nat> {
    if n == 0 then [] else Woken(run, acts, n - 1) + WakesIn(run(n - 1), acts(n - 1))
  }

  /** Still waiting for the CPU: the one whose semaphore is up, and then the ready queue. */
  ghost function Waiting(s: State, t: Token): seq<nat> {
    if t.Raised? then [t.pid] + s.mq1 else s.mq1
  }

  lemma QueueAfter(s: State, m: nat, a: Action)
    requires Sized(s, m) && Enabled(s, a) && s.sched != Released
    ensures Apply(s, m, a).mq1 == (if a.Dispatch? then s.mq1[1..] else s.mq1) + JoinsIn(s, a)
  {
  }

  lemma TokenAfter(s: State, m: nat, t: Token, a: Action)
    requires Inv(s, m, t) && Enabled(s, a)
    ensures t.Raised? && !a.Enqueue? ==> a == Wake(t.pid)
    ensures a.Wake? ==> t == Raised(a.pid)
    ensures a.Dispatch? || a.Enqueue? || !NextToken(s, m, t, a).Raised?
    ensures a.Dispatch? ==> NextToken(s, m, t, a) == Raised(s.mq1[0])
  {
    if a.Wake? {
      assert s.sems[a.pid] > 0;
    }
  }

  /** A step takes at most the first off the waiting line and puts those who join at its end. */
  lemma StepKeepsLine(s: State, m: nat, t: Token, a: Action)
    requires Inv(s, m, t) && Enabled(s, a) && s.sched != Released
    ensures WakesIn(s, a) + Waiting(Apply(s, m, a), NextToken(s, m, t, a)) == Waiting(s, t) + JoinsIn(s, a)
  {
    QueueAfter(s, m, a);
    TokenAfter(s, m, t, a);
    if a.Dispatch? {
      assert s.mq1 == [s.mq1[0]] + s.mq1[1..];
    }
  }

  lemma LineExtended(woken: seq<nat>, line: seq<nat>, start: seq<nat>, joined: seq<nat>,
                     w: seq<nat>, line': seq<nat>, j: seq<nat>)
    requires woken + line == start + joined && w + line' == line + j
    ensures woken + w + line' == start + (joined + j)
  {
    assert woken + w + line' == woken + (w + line');
    assert woken + (line + j) == woken + line + j;
    assert start + joined + j == start + (joined + j);
  }

  lemma TakenKeepsLine(s: State, a: Action, s': State, m: nat, t: Token,
                       woken: seq<nat>, start: seq<nat>, joined: seq<nat>) returns (u: Token)
    requires Inv(s, m, t) && woken + Waiting(s, t) == start + joined
    requires if s.sched == Released then s' == s else Enabled(s, a) && s' == Apply(s, m, a)
    ensures Inv(s', m, u) && woken + WakesIn(s, a) + Waiting(s', u) == start + (joined + JoinsIn(s, a))
  {
    u := t;
    if s.sched != Released {
      StepKeepsInv(s, m, t, a);
      StepKeepsLine(s, m, t, a);
      u := NextToken(s, m, t, a);
    }
    LineExtended(woken, Waiting(s, t), start, joined, WakesIn(s, a), Waiting(s', u), JoinsIn(s, a));
  }

  /** Over any run, processes get the CPU in exactly the order in which they have joined the queue. */
  lemma {:induction false} FirstComeFirstServed(run: nat -> State, acts: nat -> Action, m: nat, t: Token, n: nat)
    returns (u: Token)
    requires Inv(run(0), m, t) && Follows(run, acts, m)
    ensures Inv(run(n), m, u)
    ensures Woken(run, acts, n) + Waiting(run(n), u) == Waiting(run(0), t) + Joined(run, acts, n)
  {
    if n == 0 {
      u := t;
      assert [] + Waiting(run(0), t) == Waiting(run(0), t) + [];
    } else {
      u := FirstComeFirstServed(run, acts, m, t, n - 1);
      assert TakenAt(run, acts, m, n - 1);
      u := TakenKeepsLine(run(n - 1), acts(n - 1), run(n), m, u,
                          Woken(run, acts, n - 1), Waiting(run(0), t), Joined(run, acts, n - 1));
    }
  }
}
