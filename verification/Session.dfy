/**
 The clinic's main loop over the event heap, with the program's own counters.

 Meeting the doctor's and the visitor's thread at their barriers is taken as done here
 (module ClinicThreads): a call-in reads the duration of the visitor whose turn it is.
 */
module Session {
  import opened EventHeap
  import opened Visitors
  import opened Clinic

  /** A visitor's thread gets its number and its duration, and goes in when the class's turn is its number. */
  datatype ThreadArg = ThreadArg(num: nat, duration: int)

  ghost function Durations(visitors: seq<ThreadArg>): seq<int> {
    seq(|visitors|, i requires 0 <= i < |visitors| => visitors[i].duration)
  }

  ghost predicate InNumberOrder(visitors: seq<ThreadArg>) {
    forall i :: 0 <= i < |visitors| ==> visitors[i].num == i + 1
  }

  function Capped(n: nat, quota: nat): nat {
    if n <= quota then n else quota
  }

  /** The one thread whose number has come up. */
  method Woken(visitors: seq<ThreadArg>, turn: nat) returns (v: ThreadArg)
    requires InNumberOrder(visitors) && 1 <= turn <= |visitors|
    ensures v in visitors && v.num == turn && forall w :: w in visitors && w.num == turn ==> w == v
    ensures v.duration == Durations(visitors)[turn - 1]
  {
    assert visitors[turn - 1] in visitors;
    v :| v in visitors && v.num == turn;
  }

  lemma AdmitsNext(visitors: seq<ThreadArg>, num: nat, duration: int)
    requires InNumberOrder(visitors) && num == |visitors| + 1
    ensures InNumberOrder(visitors + [ThreadArg(num, duration)])
    ensures Durations(visitors + [ThreadArg(num, duration)]) == Durations(visitors) + [duration]
  {
  }

  lemma SameSize(a: seq<Event>, b: seq<Event>)
    requires multiset(a) == multiset(b)
    ensures |a| == |b|
  {
    assert |multiset(a)| == |multiset(b)|;
  }

  ghost function NextTurn(d: Desks, c: Class): Desks {
    With(d, c, At(d, c).(turn := At(d, c).turn + 1))
  }

  lemma CallInAdds(s: Sim, c: Class, time: int)
    ensures var end := time + DurationOf(At(s.desks, c));
            CallIn(s, c, time) ==
              s.(desks := NextTurn(s.desks, c), chamber := Occupied(Event(DepartureKind(c), end, 0)),
                 log := s.log + [Service(c, At(s.desks, c).turn + 1, time, end)])
    ensures Added(s, CallIn(s, c, time)) == multiset{Event(DepartureKind(c), time + DurationOf(At(s.desks, c)), 0)}
  {
  }

  /** The state after an arrival has been counted and, within quota, admitted. */
  ghost function Enrolled(s: Sim, c: Class, e: Event): Sim {
    if WithinQuota(c, At(s.desks, c).arrived + 1) then Admit(s, c, e) else TurnAway(s, c)
  }

  lemma ArriveInTwoSteps(s: Sim, c: Class, e: Event)
    requires !s.ended
    ensures Arrive(s, c, e) ==
            if CalledAtOnce(s, c, e) then CallIn(Enrolled(s, c, e), c, e.time) else Enrolled(s, c, e)
    ensures Enrolled(s, c, e).log == s.log
  {
  }

  lemma ProceedInTwoSteps(s: Sim, time: int)
    ensures var s' := Proceed(s, time);
            if TotalWaiting(s.desks) == 0 && s.desks.p.arrived >= 25 && s.desks.s.arrived >= 3
            then s' == s.(ended := true) && Added(s, s') == multiset{}
            else s' == if TotalWaiting(s.desks) == 0 then s else CallIn(s, NextClass(s.desks), time)
  {
  }

  lemma HeapTopIsNext(q: seq<Event>, s: Sim, e: Event)
    requires multiset(q) == Queue(s) && Inv(s) && q != [] && e == q[0]
    requires forall x :: x in q ==> NotAfter(e, x)
    ensures IsNext(s, e) && |q| <= |s.pending| + 1
  {
    QueueIsBounded(s);
    assert e in multiset(q);
    forall x | x in Queue(s)
      ensures NotAfter(e, x)
    {
      assert x in multiset(q);
    }
    assert |multiset(q)| == |q|;
  }

  lemma OneLess(m: multiset<Event>, e: Event)
    ensures |m - multiset{e}| <= |m|
  {
    if e in m {
      assert m == m - multiset{e} + multiset{e};
    } else {
      assert m == m - multiset{e};
    }
  }

  lemma PendingOnlyShrinks(s: Sim, e: Event)
    ensures |Handle(s, e).pending| <= |s.pending|
  {
    HandleSetsTime(s, e);
    OneLess(s.pending, e);
  }

  /** When the doctor decides, whoever waits has not been called in yet. */
  lemma WaitingHaveTurns(s: Sim, time: int)
    requires Deciding(s, time)
    ensures s.desks.r.waiting > 0 ==> s.desks.r.turn < |s.desks.r.durations|
    ensures s.desks.p.waiting > 0 ==> s.desks.p.turn < |s.desks.p.durations|
    ensures s.desks.s.waiting > 0 ==> s.desks.s.turn < |s.desks.s.durations|
  {
    assert DeskOk(s, Reporter) && DeskOk(s, Patient) && DeskOk(s, Salesrep);
  }

  /** At the end, desk by desk. */
  lemma DesksAreDone(s: Sim)
    requires Inv(s) && Queue(s) == multiset{}
    ensures s.doctor && Disjoint(s.log)
    ensures DeskIsDone(s.log, s.desks.p, Patient) && DeskIsDone(s.log, s.desks.r, Reporter)
    ensures DeskIsDone(s.log, s.desks.s, Salesrep)
  {
    AllServedAtTheEnd(s);
    assert At(s.desks, Patient) == s.desks.p && At(s.desks, Reporter) == s.desks.r;
    assert At(s.desks, Salesrep) == s.desks.s;
  }

  ghost predicate DeskIsDone(log: seq<Service>, d: Desk, c: Class) {
    d.turn == |d.durations| && d.waiting == 0 && NumbersOf(log, c) == UpTo(|d.durations|)
  }

  class Session {
    const EQ: EventQueue
    var numOfPatients: nat
    var numOfReporters: nat
    var numOfSalesrep: nat
    var waitingPatients: nat
    var waitingReporters: nat
    var waitingSalesrep: nat
    var turnPatient: nat
    var turnReporter: nat
    var turnSalesrep: nat
    var docHasArrived: bool
    var endOfService: bool
    var currTime: int
    var currEventDuration: int
    // what has been handed to the visitors' threads, in the order in which these were created
    var patients: seq<ThreadArg>
    var reporters: seq<ThreadArg>
    var salesreps: seq<ThreadArg>
    ghost var pending: multiset<Event>
    ghost var chamber: Chamber
    ghost var now: int
    ghost var log: seq<Service>

    /** The program's state read as the simulation's. */
    ghost function View(): Sim
      reads this
    {
      Sim(pending,
          PerClass(Desk(numOfReporters, waitingReporters, turnReporter, Durations(reporters)),
                   Desk(numOfPatients, waitingPatients, turnPatient, Durations(patients)),
                   Desk(numOfSalesrep, waitingSalesrep, turnSalesrep, Durations(salesreps))),
          docHasArrived, endOfService, chamber, now, log)
    }

    /** The queue is a heap, and the n-th visitor admitted to a class has number n. */
    ghost predicate Orderly()
      reads this, EQ, EQ.Q
    {
      && EQ.Valid() && IsHeap(EQ.Contents())
      && InNumberOrder(patients) && InNumberOrder(reporters) && InNumberOrder(salesreps)
      && (!endOfService ==>
            && |patients| == Capped(numOfPatients, 25) && |reporters| == numOfReporters
            && |salesreps| == Capped(numOfSalesrep, 3))
    }

    /** Over exactly when the doctor is in, nobody waits and both quotas have come; within quota all are admitted. */
    ghost predicate ByTheRules()
      reads this
    {
      && (endOfService <==>
            docHasArrived && waitingPatients + waitingReporters + waitingSalesrep == 0
            && numOfPatients >= 25 && numOfSalesrep >= 3)
      && |patients| == (if numOfPatients < 25 then numOfPatients else 25)
      && |salesreps| == (if numOfSalesrep < 3 then numOfSalesrep else 3)
      && (!endOfService ==> |reporters| == numOfReporters)
    }

    lemma RulesInView()
      ensures ByTheRules() <==> OverWhenDone(View()) && AdmitsByQuota(View())
    {
    }

    /** The array heap holds exactly the simulation's queue. */
    ghost predicate Valid()
      reads this, EQ, EQ.Q
    {
      && Orderly() && multiset(EQ.Contents()) == Queue(View()) && Inv(View()) && |pending| < EQ.Q.Length
      && ByTheRules()
    }

    constructor (arrivals: seq<Event>, ghost from: int)
      requires |arrivals| < 128
      requires forall e :: e in arrivals ==> IsArrival(e) && from <= e.time
      requires from <= 0
      ensures Valid() && fresh(EQ) && fresh(EQ.Q)
      ensures View() == Initial(multiset(arrivals), from)
    {
      EQ := new EventQueue(128, arrivals);
      numOfPatients, numOfReporters, numOfSalesrep := 0, 0, 0;
      waitingPatients, waitingReporters, waitingSalesrep := 0, 0, 0;
      turnPatient, turnReporter, turnSalesrep := 0, 0, 0;
      docHasArrived, endOfService := false, false;
      currTime, currEventDuration := 0, 0;
      patients, reporters, salesreps := [], [], [];
      pending, chamber, now, log := multiset(arrivals), Vacant, from, [];
      new;
      InitialHasInvariant(multiset(arrivals), from);
      SameSize(EQ.Contents(), arrivals);
      assert View() == Initial(multiset(arrivals), from);
      Schedule(Event('D', 0, 0));
    }

    method Schedule(e: Event)
      requires Orderly() && EQ.n < EQ.Q.Length
      modifies EQ, EQ.Q
      ensures Orderly() && multiset(EQ.Contents()) == old(multiset(EQ.Contents())) + multiset{e}
    {
      EQ.AddEvent(e);
    }

    // ------------------------------------------------------------ calling somebody in

    /** Puts the departure into the heap and notes who is in the chamber. */
    method Book(e: Event, ghost c: Class, ghost number: nat)
      requires Orderly() && EQ.n < EQ.Q.Length
      modifies this`chamber, this`log, EQ, EQ.Q
      ensures View() == old(View()).(chamber := Occupied(e), log := old(log) + [Service(c, number, currTime, e.time)])
      ensures Orderly() && multiset(EQ.Contents()) == old(multiset(EQ.Contents())) + multiset{e}
    {
      Schedule(e);
      chamber := Occupied(e);
      log := log + [Service(c, number, currTime, e.time)];
    }

    /** The turn moves on and the duration of the one who is woken is read. */
    method WakeReporter()
      requires InNumberOrder(reporters) && turnReporter < |reporters|
      modifies this`turnReporter, this`currEventDuration
      ensures View() == old(View()).(desks := NextTurn(old(View()).desks, Reporter))
      ensures turnReporter == old(turnReporter) + 1 && currEventDuration == DurationOf(At(old(View()).desks, Reporter))
    {
      turnReporter := turnReporter + 1;
      var woken := Woken(reporters, turnReporter);
      currEventDuration := woken.duration;
    }

    method CallReporter()
      requires Orderly() && EQ.n < EQ.Q.Length && turnReporter < |reporters|
      modifies this, EQ, EQ.Q
      ensures View() == CallIn(old(View()), Reporter, old(currTime)) && Orderly()
      ensures multiset(EQ.Contents()) == old(multiset(EQ.Contents())) + Added(old(View()), View())
    {
      CallInAdds(View(), Reporter, currTime);
      WakeReporter();
      Book(Event('r', currTime + currEventDuration, 0), Reporter, turnReporter);
    }

    /** The turn moves on and the duration of the one who is woken is read. */
    method WakePatient()
      requires InNumberOrder(patients) && turnPatient < |patients|
      modifies this`turnPatient, this`currEventDuration
      ensures View() == old(View()).(desks := NextTurn(old(View()).desks, Patient))
      ensures turnPatient == old(turnPatient) + 1 && currEventDuration == DurationOf(At(old(View()).desks, Patient))
    {
      turnPatient := turnPatient + 1;
      var woken := Woken(patients, turnPatient);
      currEventDuration := woken.duration;
    }

    method CallPatient()
      requires Orderly() && EQ.n < EQ.Q.Length && turnPatient < |patients|
      modifies this, EQ, EQ.Q
      ensures View() == CallIn(old(View()), Patient, old(currTime)) && Orderly()
      ensures multiset(EQ.Contents()) == old(multiset(EQ.Contents())) + Added(old(View()), View())
    {
      CallInAdds(View(), Patient, currTime);
      WakePatient();
      Book(Event('p', currTime + currEventDuration, 0), Patient, turnPatient);
    }

    /** The turn moves on and the duration of the one who is woken is read. */
    method WakeSalesrep()
      requires InNumberOrder(salesreps) && turnSalesrep < |salesreps|
      modifies this`turnSalesrep, this`currEventDuration
      ensures View() == old(View()).(desks := NextTurn(old(View()).desks, Salesrep))
      ensures turnSalesrep == old(turnSalesrep) + 1 && currEventDuration == DurationOf(At(old(View()).desks, Salesrep))
    {
      turnSalesrep := turnSalesrep + 1;
      var woken := Woken(salesreps, turnSalesrep);
      currEventDuration := woken.duration;
    }

    method CallSalesrep()
      requires Orderly() && EQ.n < EQ.Q.Length && turnSalesrep < |salesreps|
      modifies this, EQ, EQ.Q
      ensures View() == CallIn(old(View()), Salesrep, old(currTime)) && Orderly()
      ensures multiset(EQ.Contents()) == old(multiset(EQ.Contents())) + Added(old(View()), View())
    {
      CallInAdds(View(), Salesrep, currTime);
      WakeSalesrep();
      Book(Event('s', currTime + currEventDuration, 0), Salesrep, turnSalesrep);
    }

    // ------------------------------------------------------------ arrivals

    method EnrolPatient(e: Event) returns (calls: bool)
      requires !endOfService && InNumberOrder(patients) && |patients| == Capped(numOfPatients, 25)
      modifies this`numOfPatients, this`waitingPatients, this`patients
      ensures InNumberOrder(patients) && |patients| == Capped(numOfPatients, 25)
      ensures View() == Enrolled(old(View()), Patient, e)
      ensures calls <==> CalledAtOnce(old(View()), Patient, e)
    {
      numOfPatients := numOfPatients + 1;
      if numOfPatients > 25 {
        return false;
      }
      waitingPatients := waitingPatients + 1;
      AdmitsNext(patients, numOfPatients, e.duration);
      patients := patients + [ThreadArg(numOfPatients, e.duration)];
      if !docHasArrived {
        return false;
      }
      return waitingPatients == 1 && !(waitingReporters > 0 || waitingSalesrep > 0);
    }

    method PatientArrives(e: Event)
      requires Orderly() && EQ.n < EQ.Q.Length && !endOfService && turnPatient <= |patients|
      modifies this, EQ, EQ.Q
      ensures View() == Arrive(old(View()), Patient, e) && Orderly()
      ensures currTime == if |log| > |old(log)| then e.time + currEventDuration else old(currTime)
      ensures multiset(EQ.Contents()) == old(multiset(EQ.Contents())) + Added(old(View()), View())
    {
      ArriveInTwoSteps(View(), Patient, e);
      var calls := EnrolPatient(e);
      if calls {
        currTime := e.time;
        CallPatient();
        currTime := e.time + currEventDuration;
      }
    }

    method EnrolReporter(e: Event) returns (calls: bool)
      requires !endOfService && InNumberOrder(reporters) && |reporters| == numOfReporters
      modifies this`numOfReporters, this`waitingReporters, this`reporters
      ensures InNumberOrder(reporters) && |reporters| == numOfReporters
      ensures View() == Enrolled(old(View()), Reporter, e)
      ensures calls <==> CalledAtOnce(old(View()), Reporter, e)
    {
      numOfReporters := numOfReporters + 1;
      waitingReporters := waitingReporters + 1;
      AdmitsNext(reporters, numOfReporters, e.duration);
      reporters := reporters + [ThreadArg(numOfReporters, e.duration)];
      if !docHasArrived {
        return false;
      }
      return waitingReporters == 1 && !(waitingPatients > 0 || waitingSalesrep > 0);
    }

    method ReporterArrives(e: Event)
      requires Orderly() && EQ.n < EQ.Q.Length && !endOfService && turnReporter <= |reporters|
      modifies this, EQ, EQ.Q
      ensures View() == Arrive(old(View()), Reporter, e) && Orderly()
      ensures currTime == if |log| > |old(log)| then e.time + currEventDuration else old(currTime)
      ensures multiset(EQ.Contents()) == old(multiset(EQ.Contents())) + Added(old(View()), View())
    {
      ArriveInTwoSteps(View(), Reporter, e);
      var calls := EnrolReporter(e);
      if calls {
        currTime := e.time;
        CallReporter();
        currTime := e.time + currEventDuration;
      }
    }

    method EnrolSalesrep(e: Event) returns (calls: bool)
      requires !endOfService && InNumberOrder(salesreps) && |salesreps| == Capped(numOfSalesrep, 3)
      modifies this`numOfSalesrep, this`waitingSalesrep, this`salesreps
      ensures InNumberOrder(salesreps) && |salesreps| == Capped(numOfSalesrep, 3)
      ensures View() == Enrolled(old(View()), Salesrep, e)
      ensures calls <==> CalledAtOnce(old(View()), Salesrep, e)
    {
      numOfSalesrep := numOfSalesrep + 1;
      if numOfSalesrep > 3 {
        return false;
      }
      waitingSalesrep := waitingSalesrep + 1;
      AdmitsNext(salesreps, numOfSalesrep, e.duration);
      salesreps := salesreps + [ThreadArg(numOfSalesrep, e.duration)];
      if !docHasArrived {
        return false;
      }
      return waitingSalesrep == 1 && !(waitingPatients > 0 || waitingReporters > 0);
    }

    method SalesrepArrives(e: Event)
      requires Orderly() && EQ.n < EQ.Q.Length && !endOfService && turnSalesrep <= |salesreps|
      modifies this, EQ, EQ.Q
      ensures View() == Arrive(old(View()), Salesrep, e) && Orderly()
      ensures currTime == if |log| > |old(log)| then e.time + currEventDuration else old(currTime)
      ensures multiset(EQ.Contents()) == old(multiset(EQ.Contents())) + Added(old(View()), View())
    {
      ArriveInTwoSteps(View(), Salesrep, e);
      var calls := EnrolSalesrep(e);
      if calls {
        currTime := e.time;
        CallSalesrep();
        currTime := e.time + currEventDuration;
      }
    }

    // ------------------------------------------------------------ the doctor decides

    method SendHome(e: Event)
      requires Orderly()
      modifies this`endOfService, this`currTime
      ensures View() == old(View()).(ended := true) && currTime == e.time && Orderly()
    {
      endOfService := true;
      currTime := e.time;
    }

    method Decide(e: Event)
      requires Orderly() && EQ.n < EQ.Q.Length
      requires waitingReporters > 0 ==> turnReporter < |reporters|
      requires waitingPatients > 0 ==> turnPatient < |patients|
      requires waitingSalesrep > 0 ==> turnSalesrep < |salesreps|
      modifies this, EQ, EQ.Q
      ensures View() == Proceed(old(View()), e.time) && Orderly()
      ensures currTime ==
                if old(waitingPatients + waitingReporters + waitingSalesrep) == 0
                   && old(numOfPatients) >= 25 && old(numOfSalesrep) >= 3
                then e.time else e.time + currEventDuration
      ensures multiset(EQ.Contents()) == old(multiset(EQ.Contents())) + Added(old(View()), View())
    {
      ProceedInTwoSteps(View(), e.time);
      if waitingPatients == 0 && waitingReporters == 0 && waitingSalesrep == 0
         && numOfPatients >= 25 && numOfSalesrep >= 3
      {
        SendHome(e);
        return;
      }
      SeeNext(e);
    }

    /** Somebody who waits is called in at the time of the event. */
    method SeeNext(e: Event)
      requires Orderly() && EQ.n < EQ.Q.Length
      requires waitingReporters > 0 ==> turnReporter < |reporters|
      requires waitingPatients > 0 ==> turnPatient < |patients|
      requires waitingSalesrep > 0 ==> turnSalesrep < |salesreps|
      modifies this, EQ, EQ.Q
      ensures View() == if TotalWaiting(old(View()).desks) == 0 then old(View())
                        else CallIn(old(View()), NextClass(old(View()).desks), e.time)
      ensures currTime == e.time + currEventDuration
      ensures Orderly() && multiset(EQ.Contents()) == old(multiset(EQ.Contents())) + Added(old(View()), View())
    {
      ghost var was := View();
      if waitingPatients > 0 || waitingReporters > 0 || waitingSalesrep > 0 {
        currTime := e.time;
      }
      assert View() == was;
      CallNext();
      currTime := e.time + currEventDuration;
    }

    /** Of the classes somebody waits for, the first in rank calls its next visitor. */
    method CallNext()
      requires Orderly() && EQ.n < EQ.Q.Length
      requires waitingReporters > 0 ==> turnReporter < |reporters|
      requires waitingPatients > 0 ==> turnPatient < |patients|
      requires waitingSalesrep > 0 ==> turnSalesrep < |salesreps|
      modifies this, EQ, EQ.Q
      ensures View() == if TotalWaiting(old(View()).desks) == 0 then old(View())
                        else CallIn(old(View()), NextClass(old(View()).desks), old(currTime))
      ensures Orderly() && multiset(EQ.Contents()) == old(multiset(EQ.Contents())) + Added(old(View()), View())
    {
      if waitingReporters > 0 {
        CallReporter();
      } else if waitingPatients > 0 {
        CallPatient();
      } else if waitingSalesrep > 0 {
        CallSalesrep();
      }
    }

    // ------------------------------------------------------------ the loop

    method CountLate(e: Event)
      requires e.kind == 'R' || e.kind == 'P' || e.kind == 'S'
      requires endOfService
      modifies this`numOfPatients, this`numOfReporters, this`numOfSalesrep
      ensures View() == Arrive(old(View()), ClassOf(e.kind), e)
    {
      if e.kind == 'P' {
        numOfPatients := numOfPatients + 1;
      } else if e.kind == 'R' {
        numOfReporters := numOfReporters + 1;
      } else if e.kind == 'S' {
        numOfSalesrep := numOfSalesrep + 1;
      }
    }

    method ArrivalComes(e: Event)
      requires Orderly() && EQ.n < EQ.Q.Length
      requires turnPatient <= |patients| && turnReporter <= |reporters| && turnSalesrep <= |salesreps|
      requires e.kind == 'R' || e.kind == 'P' || e.kind == 'S'
      modifies this, EQ, EQ.Q
      ensures View() == Arrive(old(View()), ClassOf(e.kind), e) && Orderly()
      ensures multiset(EQ.Contents()) == old(multiset(EQ.Contents())) + Added(old(View()), View())
    {
      if endOfService {
        CountLate(e);
      } else if e.kind == 'P' {
        PatientArrives(e);
      } else if e.kind == 'R' {
        ReporterArrives(e);
      } else {
        SalesrepArrives(e);
      }
    }

    ghost method Pop(e: Event)
      modifies this`pending, this`now
      ensures View() == Popped(old(View()), e)
    {
      pending := pending - multiset{e};
      now := e.time;
    }

    method HandleArrival(e: Event)
      requires Orderly() && EQ.n < EQ.Q.Length
      requires turnPatient <= |patients| && turnReporter <= |reporters| && turnSalesrep <= |salesreps|
      requires e.kind == 'R' || e.kind == 'P' || e.kind == 'S'
      modifies this, EQ, EQ.Q
      ensures View() == Arrive(Popped(old(View()), e), ClassOf(e.kind), e) && Orderly()
      ensures multiset(EQ.Contents()) == old(multiset(EQ.Contents())) + Added(Popped(old(View()), e), View())
    {
      Pop(e);
      ArrivalComes(e);
    }

    method HandleDoctor(e: Event)
      requires Orderly() && Inv(View()) && IsNext(View(), e) && EQ.n < EQ.Q.Length
      requires e.kind == 'D'
      modifies this, EQ, EQ.Q
      ensures View() == Handle(old(View()), e) && Orderly()
      ensures multiset(EQ.Contents()) == old(multiset(EQ.Contents())) + Added(old(View()), View())
    {
      ghost var was := View();
      OnlyDoctorIsD(was, e);
      DoctorDecides(was, e);
      docHasArrived := true;
      now := e.time;
      assert View() == was.(now := e.time, doctor := true);
      WaitingHaveTurns(View(), e.time);
      Decide(e);
    }

    method VisitorLeaves(e: Event, ghost c: Class)
      requires e.kind == DepartureKind(c) && At(View().desks, c).waiting > 0
      modifies this`waitingPatients, this`waitingReporters, this`waitingSalesrep, this`chamber, this`now
      ensures View() == Leave(old(View()).(now := e.time), c)
    {
      if e.kind == 'p' {
        waitingPatients := waitingPatients - 1;
      } else if e.kind == 'r' {
        waitingReporters := waitingReporters - 1;
      } else {
        waitingSalesrep := waitingSalesrep - 1;
      }
      chamber := Vacant;
      now := e.time;
    }

    method HandleDeparture(e: Event, ghost c: Class)
      requires Orderly() && Inv(View()) && IsNext(View(), e) && EQ.n < EQ.Q.Length
      requires e.kind == DepartureKind(c)
      modifies this, EQ, EQ.Q
      ensures View() == Handle(old(View()), e) && Orderly()
      ensures multiset(EQ.Contents()) == old(multiset(EQ.Contents())) + Added(old(View()), View())
    {
      ghost var was := View();
      OnlyDepartureIsLowercase(was, c, e);
      PendingIsNotBefore(was, e);
      DepartureIsProceed(was, c, e);
      LeavingLetsDoctorDecide(was, c, e.time);
      assert DeskOk(was, c);
      VisitorLeaves(e, c);
      WaitingHaveTurns(View(), e.time);
      Decide(e);
    }

    /** The loop's body after e has been taken from the heap. */
    method HandleEvent(e: Event)
      requires Orderly() && Inv(View()) && IsNext(View(), e) && EQ.n < EQ.Q.Length
      modifies this, EQ, EQ.Q
      ensures View() == Handle(old(View()), e) && Orderly()
      ensures multiset(EQ.Contents()) == old(multiset(EQ.Contents())) + Added(old(View()), View())
    {
      NextIsOneOfThese(View(), e);
      if e.kind == 'R' || e.kind == 'P' || e.kind == 'S' {
        assert DeskOk(View(), Reporter) && DeskOk(View(), Patient) && DeskOk(View(), Salesrep);
        ArrivalIsArrive(View(), ClassOf(e.kind), e);
        HandleArrival(e);
      } else if e.kind == 'D' {
        HandleDoctor(e);
      } else {
        ghost var c :| e.kind == DepartureKind(c);
        HandleDeparture(e, c);
      }
    }

    /** One turn of the loop: the heap's minimum is the simulation's next event. */
    method Turn() returns (e: Event)
      requires Valid() && EQ.n > 0
      modifies this, EQ, EQ.Q
      ensures Valid() && IsNext(old(View()), e) && View() == Handle(old(View()), e)
    {
      ghost var was := View();
      e := EQ.NextEvent();
      HeapTopIsNext(EQ.Contents(), was, e);
      HandleKeepsInv(was, e);
      HandleQueue(was, e);
      PendingOnlyShrinks(was, e);
      RulesInView();
      HandleKeepsRules(was, e);
      EQ.DelEvent();
      HandleEvent(e);
      RulesInView();
    }

    /** Runs until the queue is empty: by then every admitted visitor has been called in exactly once. */
    method Run() returns (ghost es: seq<Event>)
      requires Valid()
      modifies this, EQ, EQ.Q
      ensures EachIsNext(old(View()), es) && View() == After(old(View()), es)
      ensures Valid() && EQ.n == 0 && docHasArrived
      ensures endOfService <==> numOfPatients >= 25 && numOfSalesrep >= 3
      ensures |patients| == (if numOfPatients < 25 then numOfPatients else 25)
      ensures |salesreps| == (if numOfSalesrep < 3 then numOfSalesrep else 3)
      ensures !endOfService ==> |reporters| == numOfReporters
      ensures turnPatient == |patients| && turnReporter == |reporters| && turnSalesrep == |salesreps|
      ensures waitingPatients == waitingReporters == waitingSalesrep == 0
      ensures NumbersOf(log, Patient) == UpTo(|patients|) && NumbersOf(log, Reporter) == UpTo(|reporters|)
      ensures NumbersOf(log, Salesrep) == UpTo(|salesreps|) && Disjoint(log)
    {
      es := [];
      var done := EQ.Empty();
      while !done
        invariant Valid() && done == (EQ.n == 0)
        invariant EachIsNext(old(View()), es) && View() == After(old(View()), es)
        decreases Measure(View())
      {
        ghost var was := View();
        MeasureIsNatural(was);
        var e := Turn();
        HandleDescends(was, e);
        OneMore(old(View()), es, e);
        es := es + [e];
        done := EQ.Empty();
      }
      assert EQ.Contents() == [];
      DesksAreDone(View());
    }
  }
}
