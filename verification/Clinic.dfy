/** The clinic as a sequential simulation: what one event does, and what holds over whole runs. */
module Clinic {
  import opened EventHeap
  import opened Visitors

  /**
   One class of visitors: how many have come, how many of the admitted are waiting or being
   served, how many have been called in, and the admitted visitors' durations in number order.
   */
  datatype Desk = Desk(arrived: nat, waiting: nat, turn: nat, durations: seq<int>)

  type Desks = PerClass<Desk>

  /** Visitor `num` of a class was with the doctor from start to end. */
  datatype Service = Service(visitorClass: Class, num: nat, start: int, end: int)

  /** The departure event in the queue, when somebody is being served. */
  datatype Chamber = Vacant | Occupied(departure: Event)

  /** `pending` are the arrivals still in the queue; `now` is the time of the last event handled. */
  datatype Sim = Sim(pending: multiset<Event>, desks: Desks, doctor: bool, ended: bool, chamber: Chamber,
                     now: int, log: seq<Service>)

  const DOCTOR: Event := Event('D', 0, 0)

  function ArrivalKind(c: Class): char {
    match c
    case Reporter => 'R'
    case Patient => 'P'
    case Salesrep => 'S'
  }

  function DepartureKind(c: Class): char {
    match c
    case Reporter => 'r'
    case Patient => 'p'
    case Salesrep => 's'
  }

  predicate WithinQuota(c: Class, arrived: nat) {
    match c
    case Reporter => true
    case Patient => arrived <= 25
    case Salesrep => arrived <= 3
  }

  function TotalWaiting(d: Desks): nat {
    d.r.waiting + d.p.waiting + d.s.waiting
  }

  /** Everything in the event queue. */
  ghost function Queue(s: Sim): multiset<Event> {
    s.pending + (if s.doctor then multiset{} else multiset{DOCTOR})
    + (if s.chamber.Vacant? then multiset{} else multiset{s.chamber.departure})
  }

  // ------------------------------------------------------------ what one event does

  /** Who is called in when somebody waits. */
  function NextClass(d: Desks): Class {
    if d.r.waiting > 0 then Reporter else if d.p.waiting > 0 then Patient else Salesrep
  }

  function DurationOf(desk: Desk): int {
    if desk.turn < |desk.durations| then desk.durations[desk.turn] else 0
  }

  function CallIn(s: Sim, c: Class, time: int): Sim {
    var desk := At(s.desks, c);
    var end := time + DurationOf(desk);
    s.(desks := With(s.desks, c, desk.(turn := desk.turn + 1)),
       chamber := Occupied(Event(DepartureKind(c), end, 0)),
       log := s.log + [Service(c, desk.turn + 1, time, end)])
  }

  /** Counted and sent away. */
  function TurnAway(s: Sim, c: Class): Sim {
    s.(desks := With(s.desks, c, At(s.desks, c).(arrived := At(s.desks, c).arrived + 1)))
  }

  /** Counted and admitted, before anybody is called in. */
  function Admit(s: Sim, c: Class, e: Event): Sim {
    var d := At(s.desks, c);
    s.(desks := With(s.desks, c, Desk(d.arrived + 1, d.waiting + 1, d.turn, d.durations + [e.duration])))
  }

  function Arrive(s: Sim, c: Class, e: Event): Sim {
    if s.ended || !WithinQuota(c, At(s.desks, c).arrived + 1) then TurnAway(s, c)
    else
      var s1 := Admit(s, c, e);
      if s.doctor && TotalWaiting(s1.desks) == 1 then CallIn(s1, c, e.time) else s1
  }

  /** After the doctor has come or somebody has left. */
  function Proceed(s: Sim, time: int): Sim {
    if TotalWaiting(s.desks) > 0 then CallIn(s, NextClass(s.desks), time)
    else if s.desks.p.arrived >= 25 && s.desks.s.arrived >= 3 then s.(ended := true)
    else s
  }

  function Leave(s: Sim, c: Class): Sim {
    var desk := At(s.desks, c);
    s.(desks := With(s.desks, c, desk.(waiting := if desk.waiting > 0 then desk.waiting - 1 else 0)), chamber := Vacant)
  }

  function Handle(s: Sim, e: Event): Sim {
    var s0 := s.(now := e.time);
    if e.kind == 'R' then Arrive(s0.(pending := s.pending - multiset{e}), Reporter, e)
    else if e.kind == 'P' then Arrive(s0.(pending := s.pending - multiset{e}), Patient, e)
    else if e.kind == 'S' then Arrive(s0.(pending := s.pending - multiset{e}), Salesrep, e)
    else if s.ended then s0
    else if e.kind == 'D' then Proceed(s0.(doctor := true), e.time)
    else if e.kind == 'r' then Proceed(Leave(s0, Reporter), e.time)
    else if e.kind == 'p' then Proceed(Leave(s0, Patient), e.time)
    else if e.kind == 's' then Proceed(Leave(s0, Salesrep), e.time)
    else s0
  }

  function Initial(arrivals: multiset<Event>, from: int): Sim {
    var none := Desk(0, 0, 0, []);
    Sim(arrivals, PerClass(none, none, none), false, false, Vacant, from, [])
  }

  // ------------------------------------------------------------ the invariant

  ghost predicate IsArrival(e: Event) {
    (e.kind == 'R' || e.kind == 'P' || e.kind == 'S') && e.duration >= 0
  }

  ghost predicate InService(s: Sim, c: Class) {
    s.chamber.Occupied? && s.chamber.departure.kind == DepartureKind(c)
  }

  /** Of the admitted visitors, those not called in yet and the one in service are waiting. */
  ghost predicate DeskOk(s: Sim, c: Class) {
    var d := At(s.desks, c);
    && d.turn <= |d.durations| <= d.arrived
    && (forall i :: 0 <= i < |d.durations| ==> d.durations[i] >= 0)
    && d.waiting == |d.durations| - d.turn + (if InService(s, c) then 1 else 0)
    && (InService(s, c) ==> d.turn > 0)
  }

  /** Once the doctor has come, a departure is queued exactly while somebody waits or is served. */
  ghost predicate OneDeparture(s: Sim) {
    && (s.doctor ==> (s.chamber.Occupied? <==> TotalWaiting(s.desks) > 0))
    && (!s.doctor ==> s.chamber.Vacant?)
    && (s.chamber.Occupied? ==> exists c :: InService(s, c))
    && (s.ended ==> s.doctor && TotalWaiting(s.desks) == 0)
  }

  /** Nothing in the queue lies in the past. */
  ghost predicate Punctual(s: Sim) {
    && (forall e :: e in s.pending ==> IsArrival(e) && s.now <= e.time)
    && (!s.doctor ==> s.now <= 0)
    && (s.chamber.Occupied? ==> s.now <= s.chamber.departure.time)
  }

  ghost predicate Disjoint(log: seq<Service>) {
    forall i, j :: 0 <= i < j < |log| ==> log[i].end <= log[j].start
  }

  /** Service intervals follow one another; the last one ends with the queued departure. */
  ghost predicate Booked(s: Sim) {
    && Disjoint(s.log)
    && (forall i :: 0 <= i < |s.log| ==> s.log[i].start <= s.log[i].end)
    && (s.chamber.Occupied? ==> s.log != [] && s.log[|s.log| - 1].end == s.chamber.departure.time)
    && (s.chamber.Vacant? && s.log != [] ==> s.log[|s.log| - 1].end <= s.now)
  }

  /** Numbers called in from one class, in order. */
  ghost function NumbersOf(log: seq<Service>, c: Class): seq<nat> {
    if log == [] then []
    else
      var last := log[|log| - 1];
      NumbersOf(log[..|log| - 1], c) + (if last.visitorClass == c then [last.num] else [])
  }

  ghost function UpTo(n: nat): (s: seq<nat>)
    ensures |s| == n && forall i :: 0 <= i < n ==> s[i] == i + 1
  {
    if n == 0 then [] else UpTo(n - 1) + [n]
  }

  /** Each class is served in number order, nobody twice, for the time asked for. */
  ghost predicate Numbered(s: Sim) {
    && (forall c :: NumbersOf(s.log, c) == UpTo(At(s.desks, c).turn))
    && (forall i :: 0 <= i < |s.log| ==> AsAgreed(s.desks, s.log[i]))
  }

  /** The visitor came and was served for the time asked for. */
  ghost predicate AsAgreed(d: Desks, v: Service) {
    1 <= v.num <= |At(d, v.visitorClass).durations| && v.end == v.start + At(d, v.visitorClass).durations[v.num - 1]
  }

  ghost predicate Inv(s: Sim) {
    (forall c :: DeskOk(s, c)) && OneDeparture(s) && Punctual(s) && Booked(s) && Numbered(s)
  }

  ghost predicate IsNext(s: Sim, e: Event) {
    e in Queue(s) && forall x :: x in Queue(s) ==> NotAfter(e, x)
  }

  lemma InitialHasInvariant(arrivals: multiset<Event>, from: int)
    requires forall e :: e in arrivals ==> IsArrival(e) && from <= e.time
    requires from <= 0
    ensures Inv(Initial(arrivals, from))
    ensures Queue(Initial(arrivals, from)) == arrivals + multiset{DOCTOR}
  {
  }

  // ------------------------------------------------------------ calling somebody in

  /** What must hold when the doctor takes visitor turn + 1 of class c at time `time`. */
  ghost predicate ReadyFor(s: Sim, c: Class, time: int) {
    && (forall b :: DeskOk(s, b)) && Booked(s) && Numbered(s)
    && s.chamber.Vacant? && s.doctor && !s.ended
    && At(s.desks, c).turn < |At(s.desks, c).durations|
    && s.now == time && (forall e :: e in s.pending ==> IsArrival(e) && s.now <= e.time)
  }

  lemma CallInKeepsDesks(s: Sim, c: Class, time: int)
    requires ReadyFor(s, c, time)
    ensures forall b :: DeskOk(CallIn(s, c, time), b)
    ensures OneDeparture(CallIn(s, c, time))
  {
    var s' := CallIn(s, c, time);
    forall b
      ensures DeskOk(s', b)
    {
      assert DeskOk(s, b);
    }
    assert InService(s', c);
    assert DeskOk(s', c);
    assert At(s'.desks, c).waiting > 0;
  }

  lemma NumbersGrow(log: seq<Service>, v: Service, c: Class)
    ensures NumbersOf(log + [v], c) == NumbersOf(log, c) + if v.visitorClass == c then [v.num] else []
  {
    assert (log + [v])[..|log|] == log;
  }

  lemma CallInKeepsNumbers(s: Sim, c: Class, time: int)
    requires ReadyFor(s, c, time)
    ensures Numbered(CallIn(s, c, time))
  {
    var s' := CallIn(s, c, time);
    var v := s'.log[|s.log|];
    forall b
      ensures NumbersOf(s'.log, b) == UpTo(At(s'.desks, b).turn)
    {
      NumbersGrow(s.log, v, b);
      assert NumbersOf(s.log, b) == UpTo(At(s.desks, b).turn);
    }
    assert DeskOk(s, c);
    assert forall b :: At(s'.desks, b).durations == At(s.desks, b).durations;
    forall i | 0 <= i < |s'.log|
      ensures AsAgreed(s'.desks, s'.log[i])
    {
      assert i < |s.log| ==> s'.log[i] == s.log[i] && AsAgreed(s.desks, s.log[i]);
    }
  }

  lemma CallInKeepsBookings(s: Sim, c: Class, time: int)
    requires ReadyFor(s, c, time)
    ensures Booked(CallIn(s, c, time)) && Punctual(CallIn(s, c, time))
  {
    var s' := CallIn(s, c, time);
    assert DeskOk(s, c);
    forall i, j | 0 <= i < j < |s'.log|
      ensures s'.log[i].end <= s'.log[j].start
    {
      if j == |s.log| && i < |s.log| - 1 {
        assert s.log[i].end <= s.log[|s.log| - 1].start;
      }
    }
  }

  lemma CallInKeepsInv(s: Sim, c: Class, time: int)
    requires ReadyFor(s, c, time)
    ensures Inv(CallIn(s, c, time))
  {
    CallInKeepsDesks(s, c, time);
    CallInKeepsNumbers(s, c, time);
    CallInKeepsBookings(s, c, time);
  }

  // ------------------------------------------------------------ arrivals

  function ClassOf(kind: char): Class {
    if kind == 'R' || kind == 'r' then Reporter else if kind == 'P' || kind == 'p' then Patient else Salesrep
  }

  /** s1 is s with class c's desk changed, keeping the turn and the durations already there. */
  ghost predicate DeskChanged(s: Sim, s1: Sim, c: Class) {
    && (forall b :: b != c ==> At(s1.desks, b) == At(s.desks, b))
    && At(s1.desks, c).turn == At(s.desks, c).turn
    && At(s.desks, c).durations <= At(s1.desks, c).durations
    && s1.log == s.log
  }

  lemma DeskChangeKeepsNumbered(s: Sim, s1: Sim, c: Class)
    requires Numbered(s) && DeskChanged(s, s1, c)
    ensures Numbered(s1)
  {
    forall b
      ensures NumbersOf(s1.log, b) == UpTo(At(s1.desks, b).turn)
    {
      assert NumbersOf(s.log, b) == UpTo(At(s.desks, b).turn);
    }
    forall i | 0 <= i < |s1.log|
      ensures AsAgreed(s1.desks, s1.log[i])
    {
      var v := s.log[i];
      assert AsAgreed(s.desks, v);
      assert At(s.desks, v.visitorClass).durations <= At(s1.desks, v.visitorClass).durations;
    }
  }

  lemma DeskChangeKeepsDesks(s: Sim, s1: Sim, c: Class)
    requires (forall b :: DeskOk(s, b)) && DeskChanged(s, s1, c) && DeskOk(s1, c) && s1.chamber == s.chamber
    ensures forall b :: DeskOk(s1, b)
  {
    forall b
      ensures DeskOk(s1, b)
    {
      assert DeskOk(s, b);
    }
  }

  lemma NextArrivalIsPending(s: Sim, e: Event)
    requires Inv(s) && IsNext(s, e) && (e.kind == 'R' || e.kind == 'P' || e.kind == 'S')
    ensures e in s.pending && s.now <= e.time
    ensures forall x :: x in s.pending - multiset{e} ==> x in s.pending && IsArrival(x) && e.time <= x.time
    ensures !s.doctor ==> e.time <= 0
    ensures s.chamber.Occupied? ==> e.time <= s.chamber.departure.time
  {
    if s.chamber.Occupied? {
      var c :| InService(s, c);
      assert s.chamber.departure in Queue(s);
    }
    if !s.doctor {
      assert DOCTOR in Queue(s);
    }
    forall x | x in s.pending - multiset{e}
      ensures x in s.pending && IsArrival(x) && e.time <= x.time
    {
      assert x in s.pending;
      assert x in Queue(s);
    }
  }

  /** s once e has been taken from the queue. */
  ghost function Popped(s: Sim, e: Event): Sim {
    s.(now := e.time, pending := s.pending - multiset{e})
  }

  lemma PoppedArrival(s: Sim, e: Event)
    requires Inv(s) && IsNext(s, e) && (e.kind == 'R' || e.kind == 'P' || e.kind == 'S')
    ensures Inv(Popped(s, e)) && IsArrival(e)
  {
    NextArrivalIsPending(s, e);
    PoppedKeepsDesks(s, e);
    PoppedKeepsBookings(s, e);
  }

  lemma PoppedKeepsDesks(s: Sim, e: Event)
    requires (forall b :: DeskOk(s, b)) && OneDeparture(s) && Numbered(s)
    ensures (forall b :: DeskOk(Popped(s, e), b)) && OneDeparture(Popped(s, e)) && Numbered(Popped(s, e))
  {
    var s0 := Popped(s, e);
    forall b
      ensures DeskOk(s0, b) && (InService(s0, b) <==> InService(s, b))
    {
      assert DeskOk(s, b);
    }
    DeskChangeKeepsNumbered(s, s0, Reporter);
  }

  lemma PoppedKeepsBookings(s: Sim, e: Event)
    requires Booked(s) && Punctual(s) && e in s.pending && s.now <= e.time
    requires forall x :: x in s.pending - multiset{e} ==> IsArrival(x) && e.time <= x.time
    requires (!s.doctor ==> e.time <= 0) && (s.chamber.Occupied? ==> e.time <= s.chamber.departure.time)
    ensures Booked(Popped(s, e)) && Punctual(Popped(s, e)) && IsArrival(e)
  {
  }

  lemma WaitingGrows(d: Desks, c: Class, d': Desks)
    requires At(d', c).waiting == At(d, c).waiting + 1 && forall b :: b != c ==> At(d', b) == At(d, b)
    ensures TotalWaiting(d') == TotalWaiting(d) + 1
  {
    assert d.r == At(d, Reporter) && d.p == At(d, Patient) && d.s == At(d, Salesrep);
    assert d'.r == At(d', Reporter) && d'.p == At(d', Patient) && d'.s == At(d', Salesrep);
  }

  lemma TurnedAwayKeepsInv(s0: Sim, c: Class)
    requires Inv(s0)
    ensures Inv(TurnAway(s0, c))
  {
    var s1 := TurnAway(s0, c);
    assert DeskOk(s0, c);
    assert forall b :: InService(s1, b) <==> InService(s0, b);
    DeskChangeKeepsDesks(s0, s1, c);
    DeskChangeKeepsNumbered(s0, s1, c);
    assert TotalWaiting(s1.desks) == TotalWaiting(s0.desks);
  }

  lemma AdmissionKeepsInv(s0: Sim, c: Class, e: Event, s1: Sim)
    requires Inv(s0) && IsArrival(e) && !s0.ended && s0.now == e.time && s1 == Admit(s0, c, e)
    ensures if s0.doctor && TotalWaiting(s1.desks) == 1 then Inv(CallIn(s1, c, e.time)) else Inv(s1)
  {
    assert DeskOk(s0, c);
    assert forall b :: InService(s1, b) <==> InService(s0, b);
    DeskChangeKeepsDesks(s0, s1, c);
    DeskChangeKeepsNumbered(s0, s1, c);
    WaitingGrows(s0.desks, c, s1.desks);
    if s0.doctor && TotalWaiting(s1.desks) == 1 {
      CallInKeepsInv(s1, c, e.time);
    }
  }

  lemma ArriveKeepsInv(s0: Sim, c: Class, e: Event)
    requires Inv(s0) && IsArrival(e) && s0.now == e.time
    ensures Inv(Arrive(s0, c, e))
  {
    if s0.ended || !WithinQuota(c, At(s0.desks, c).arrived + 1) {
      TurnedAwayKeepsInv(s0, c);
    } else {
      AdmissionKeepsInv(s0, c, e, Admit(s0, c, e));
    }
  }

  lemma ArrivalIsArrive(s: Sim, c: Class, e: Event)
    requires e.kind == ArrivalKind(c)
    ensures Handle(s, e) == Arrive(Popped(s, e), c, e)
  {
  }

  lemma ArrivalKeepsInv(s: Sim, c: Class, e: Event)
    requires Inv(s) && IsNext(s, e) && e.kind == ArrivalKind(c)
    ensures Inv(Handle(s, e))
  {
    PoppedArrival(s, e);
    ArrivalIsArrive(s, c, e);
    ArriveKeepsInv(Popped(s, e), c, e);
  }

  // ------------------------------------------------------------ the doctor and departures

  /** The states in which the doctor decides whom to see: the chamber is empty and everything else is in order. */
  ghost predicate Deciding(s: Sim, time: int) {
    && (forall b :: DeskOk(s, b)) && Booked(s) && Numbered(s) && Punctual(s)
    && s.chamber.Vacant? && s.doctor && !s.ended && s.now == time
  }

  lemma ProceedKeepsInv(s: Sim, time: int)
    requires Deciding(s, time)
    ensures Inv(Proceed(s, time))
  {
    if TotalWaiting(s.desks) > 0 {
      assert DeskOk(s, NextClass(s.desks));
      CallInKeepsInv(s, NextClass(s.desks), time);
    } else {
      var s' := Proceed(s, time);
      forall b
        ensures DeskOk(s', b)
      {
        assert DeskOk(s, b);
      }
      DeskChangeKeepsNumbered(s, s', Reporter);
    }
  }

  lemma DoctorKeepsInv(s: Sim, e: Event)
    requires Inv(s) && IsNext(s, e) && e.kind == 'D'
    ensures !s.doctor && e == DOCTOR && Inv(Handle(s, e))
  {
    OnlyDoctorIsD(s, e);
    DoctorDecides(s, e);
    ProceedKeepsInv(s.(now := e.time, doctor := true), e.time);
  }

  lemma DoctorDecides(s: Sim, e: Event)
    requires Inv(s) && IsNext(s, e) && e.kind == 'D'
    ensures Deciding(s.(now := e.time, doctor := true), e.time)
  {
    OnlyDoctorIsD(s, e);
    PendingIsNotBefore(s, e);
    var s1 := s.(now := e.time, doctor := true);
    forall b
      ensures DeskOk(s1, b)
    {
      assert DeskOk(s, b);
    }
    DeskChangeKeepsNumbered(s, s1, Reporter);
  }

  lemma OnlyDoctorIsD(s: Sim, e: Event)
    requires Inv(s) && e in Queue(s) && e.kind == 'D'
    ensures !s.doctor && e == DOCTOR
  {
    assert forall c :: DepartureKind(c) != 'D';
  }

  lemma OnlyDepartureIsLowercase(s: Sim, c: Class, e: Event)
    requires Inv(s) && e in Queue(s) && e.kind == DepartureKind(c)
    ensures s.chamber == Occupied(e) && InService(s, c) && !s.ended
  {
    assert e !in s.pending;
  }

  lemma LeavingLetsDoctorDecide(s: Sim, c: Class, time: int)
    requires Inv(s) && InService(s, c) && !s.ended && s.chamber.departure.time == time
    requires forall e :: e in s.pending ==> time <= e.time
    ensures Deciding(Leave(s.(now := time), c), time)
  {
    var s1 := Leave(s.(now := time), c);
    forall b
      ensures DeskOk(s1, b)
    {
      assert DeskOk(s, b);
      assert InService(s, b) <==> b == c;
    }
    DeskChangeKeepsNumbered(s, s1, c);
  }

  lemma DepartureIsProceed(s: Sim, c: Class, e: Event)
    requires e.kind == DepartureKind(c) && !s.ended
    ensures Handle(s, e) == Proceed(Leave(s.(now := e.time), c), e.time)
  {
  }

  lemma PendingIsNotBefore(s: Sim, e: Event)
    requires IsNext(s, e)
    ensures forall x :: x in s.pending ==> e.time <= x.time
  {
    assert forall x :: x in s.pending ==> x in Queue(s);
  }

  lemma DepartureKeepsInv(s: Sim, c: Class, e: Event)
    requires Inv(s) && IsNext(s, e) && e.kind == DepartureKind(c)
    ensures Inv(Handle(s, e))
  {
    OnlyDepartureIsLowercase(s, c, e);
    PendingIsNotBefore(s, e);
    DepartureIsProceed(s, c, e);
    LeavingLetsDoctorDecide(s, c, e.time);
    ProceedKeepsInv(Leave(s.(now := e.time), c), e.time);
  }

  lemma NextIsOneOfThese(s: Sim, e: Event)
    requires Inv(s) && e in Queue(s)
    ensures e.kind == 'D' || exists c :: e.kind == ArrivalKind(c) || e.kind == DepartureKind(c)
  {
    if e in s.pending {
      assert IsArrival(e);
      assert e.kind == ArrivalKind(ClassOf(e.kind));
    } else if s.chamber == Occupied(e) {
      var c :| InService(s, c);
      assert e.kind == DepartureKind(c);
    }
  }

  /** Handling the next event keeps every law of the simulation. */
  lemma HandleKeepsInv(s: Sim, e: Event)
    requires Inv(s) && IsNext(s, e)
    ensures Inv(Handle(s, e))
  {
    NextIsOneOfThese(s, e);
    if e.kind == 'D' {
      DoctorKeepsInv(s, e);
    } else {
      var c :| e.kind == ArrivalKind(c) || e.kind == DepartureKind(c);
      if e.kind == ArrivalKind(c) {
        ArrivalKeepsInv(s, c, e);
      } else {
        DepartureKeepsInv(s, c, e);
      }
    }
  }

  // ------------------------------------------------------------ what is queued, and when it ends

  /** The departure event put into the queue between two states, if somebody has been called in. */
  ghost function Added(s: Sim, s': Sim): multiset<Event> {
    if |s'.log| > |s.log| && s'.chamber.Occupied? then multiset{s'.chamber.departure} else multiset{}
  }

  /** Somebody is called in on arrival only when nobody was there before. */
  lemma ImmediateOnlyWhenIdle(s0: Sim, c: Class, e: Event)
    requires Inv(s0) && s0.doctor && TotalWaiting(Admit(s0, c, e).desks) == 1
    ensures s0.chamber.Vacant? && TotalWaiting(s0.desks) == 0
    ensures forall b :: b != c ==> At(Admit(s0, c, e).desks, b).waiting == 0
  {
    WaitingGrows(s0.desks, c, Admit(s0, c, e).desks);
  }

  lemma CallInQueue(s: Sim, c: Class, time: int)
    requires s.chamber.Vacant?
    ensures Queue(CallIn(s, c, time)) == Queue(s) + Added(s, CallIn(s, c, time))
  {
  }

  lemma ArrivingLeavesQueue(s0: Sim, c: Class, e: Event)
    ensures Queue(Admit(s0, c, e)) == Queue(s0) && Admit(s0, c, e).log == s0.log
    ensures Queue(TurnAway(s0, c)) == Queue(s0) && TurnAway(s0, c).log == s0.log
  {
  }

  /** Whether the arrival is called in at once. */
  ghost predicate CalledAtOnce(s0: Sim, c: Class, e: Event) {
    !s0.ended && WithinQuota(c, At(s0.desks, c).arrived + 1) && s0.doctor && TotalWaiting(Admit(s0, c, e).desks) == 1
  }

  lemma ArriveQueue(s0: Sim, c: Class, e: Event)
    requires Inv(s0)
    ensures Queue(Arrive(s0, c, e)) == Queue(s0) + Added(s0, Arrive(s0, c, e))
  {
    ArrivingLeavesQueue(s0, c, e);
    if CalledAtOnce(s0, c, e) {
      ImmediateOnlyWhenIdle(s0, c, e);
      CallInQueue(Admit(s0, c, e), c, e.time);
    } else {
      assert Arrive(s0, c, e) == TurnAway(s0, c) || Arrive(s0, c, e) == Admit(s0, c, e);
    }
  }

  lemma ProceedQueue(s: Sim, time: int)
    requires Deciding(s, time)
    ensures Queue(Proceed(s, time)) == Queue(s) + Added(s, Proceed(s, time))
  {
  }

  lemma DepartureQueue(s: Sim, c: Class, e: Event)
    requires Inv(s) && IsNext(s, e) && e.kind == DepartureKind(c)
    ensures Queue(Handle(s, e)) == Queue(s) - multiset{e} + Added(s, Handle(s, e))
  {
    OnlyDepartureIsLowercase(s, c, e);
    PendingIsNotBefore(s, e);
    DepartureIsProceed(s, c, e);
    LeavingLetsDoctorDecide(s, c, e.time);
    ProceedQueue(Leave(s.(now := e.time), c), e.time);
    assert Queue(Leave(s.(now := e.time), c)) == Queue(s) - multiset{e};
  }

  lemma ArrivalQueue(s: Sim, c: Class, e: Event)
    requires Inv(s) && IsNext(s, e) && e.kind == ArrivalKind(c)
    ensures Queue(Handle(s, e)) == Queue(s) - multiset{e} + Added(s, Handle(s, e))
  {
    NextArrivalIsPending(s, e);
    PoppedArrival(s, e);
    PoppedArrivalQueue(s, c, e);
  }

  lemma PoppedArrivalQueue(s: Sim, c: Class, e: Event)
    requires Inv(Popped(s, e)) && e in s.pending && e.kind == ArrivalKind(c)
    ensures Queue(Handle(s, e)) == Queue(s) - multiset{e} + Added(s, Handle(s, e))
  {
    ArrivalIsArrive(s, c, e);
    ArriveQueue(Popped(s, e), c, e);
    PoppedQueue(s, e);
    assert Popped(s, e).log == s.log;
  }

  lemma PoppedQueue(s: Sim, e: Event)
    requires e in s.pending
    ensures Queue(Popped(s, e)) == Queue(s) - multiset{e}
  {
  }

  lemma DoctorQueue(s: Sim, e: Event)
    requires Inv(s) && IsNext(s, e) && e.kind == 'D'
    ensures Queue(Handle(s, e)) == Queue(s) - multiset{e} + Added(s, Handle(s, e))
  {
    DoctorDecides(s, e);
    OnlyDoctorIsD(s, e);
    ProceedQueue(s.(now := e.time, doctor := true), e.time);
    DoctorTaken(s, e.time);
  }

  lemma DoctorTaken(s: Sim, time: int)
    requires !s.doctor
    ensures Queue(s.(now := time, doctor := true)) == Queue(s) - multiset{DOCTOR}
  {
  }

  /** Handling takes e out of the queue and adds at most one departure. */
  lemma HandleQueue(s: Sim, e: Event)
    requires Inv(s) && IsNext(s, e)
    ensures Queue(Handle(s, e)) == Queue(s) - multiset{e} + Added(s, Handle(s, e))
  {
    NextIsOneOfThese(s, e);
    if e.kind == 'D' {
      DoctorQueue(s, e);
    } else {
      var c :| e.kind == ArrivalKind(c) || e.kind == DepartureKind(c);
      if e.kind == ArrivalKind(c) {
        ArrivalQueue(s, c, e);
      } else {
        DepartureQueue(s, c, e);
      }
    }
  }

  ghost function NotStarted(d: Desk): int {
    |d.durations| - d.turn
  }

  ghost function Measure(s: Sim): int {
    2 * |s.pending| + NotStarted(s.desks.r) + NotStarted(s.desks.p) + NotStarted(s.desks.s)
    + (if s.chamber.Occupied? then 1 else 0) + (if s.doctor then 0 else 1)
  }

  lemma MeasureIsNatural(s: Sim)
    requires Inv(s)
    ensures Measure(s) >= 0
  {
    assert DeskOk(s, Reporter) && DeskOk(s, Patient) && DeskOk(s, Salesrep);
  }

  lemma ProceedMeasure(s: Sim, time: int)
    requires Deciding(s, time)
    ensures Measure(Proceed(s, time)) == Measure(s)
  {
    assert DeskOk(s, Reporter) && DeskOk(s, Patient) && DeskOk(s, Salesrep);
  }

  lemma AdmitMeasure(s0: Sim, c: Class, e: Event)
    ensures Measure(Admit(s0, c, e)) == Measure(s0) + 1 && Measure(TurnAway(s0, c)) == Measure(s0)
  {
  }

  lemma CallInMeasure(s: Sim, c: Class, time: int)
    requires s.chamber.Vacant?
    ensures Measure(CallIn(s, c, time)) == Measure(s)
  {
  }

  lemma ArriveMeasure(s0: Sim, c: Class, e: Event)
    requires Inv(s0)
    ensures Measure(Arrive(s0, c, e)) <= Measure(s0) + 1
  {
    AdmitMeasure(s0, c, e);
    if CalledAtOnce(s0, c, e) {
      ImmediateOnlyWhenIdle(s0, c, e);
      CallInMeasure(Admit(s0, c, e), c, e.time);
    } else {
      assert Arrive(s0, c, e) == TurnAway(s0, c) || Arrive(s0, c, e) == Admit(s0, c, e);
    }
  }

  lemma ArrivalDescends(s: Sim, c: Class, e: Event)
    requires Inv(s) && IsNext(s, e) && e.kind == ArrivalKind(c)
    ensures Measure(Handle(s, e)) < Measure(s)
  {
    NextArrivalIsPending(s, e);
    PoppedArrival(s, e);
    ArrivalIsArrive(s, c, e);
    ArriveMeasure(Popped(s, e), c, e);
    assert |Popped(s, e).pending| == |s.pending| - 1;
  }

  lemma DepartureDescends(s: Sim, c: Class, e: Event)
    requires Inv(s) && IsNext(s, e) && e.kind == DepartureKind(c)
    ensures Measure(Handle(s, e)) < Measure(s)
  {
    OnlyDepartureIsLowercase(s, c, e);
    PendingIsNotBefore(s, e);
    DepartureIsProceed(s, c, e);
    LeavingLetsDoctorDecide(s, c, e.time);
    ProceedMeasure(Leave(s.(now := e.time), c), e.time);
    assert Measure(Leave(s.(now := e.time), c)) == Measure(s) - 1;
  }

  /** Every event handled brings the end of the loop closer. */
  lemma HandleDescends(s: Sim, e: Event)
    requires Inv(s) && IsNext(s, e)
    ensures Measure(Handle(s, e)) < Measure(s)
  {
    NextIsOneOfThese(s, e);
    if e.kind == 'D' {
      OnlyDoctorIsD(s, e);
      DoctorDecides(s, e);
      ProceedMeasure(s.(now := e.time, doctor := true), e.time);
    } else {
      var c :| e.kind == ArrivalKind(c) || e.kind == DepartureKind(c);
      if e.kind == ArrivalKind(c) {
        ArrivalDescends(s, c, e);
      } else {
        DepartureDescends(s, c, e);
      }
    }
  }

  /** The queue never holds more than the arrivals still to come and one further event. */
  lemma QueueIsBounded(s: Sim)
    requires Inv(s)
    ensures |Queue(s)| <= |s.pending| + 1
  {
  }

  /** Time never goes back. */
  lemma TimesDoNotDecrease(s: Sim, e: Event)
    requires Inv(s) && IsNext(s, e)
    ensures s.now <= e.time && Handle(s, e).now == e.time
  {
    HandleSetsTime(s, e);
    NextIsOneOfThese(s, e);
    if e.kind == 'R' || e.kind == 'P' || e.kind == 'S' {
      NextArrivalIsPending(s, e);
    } else if e.kind == 'D' {
      OnlyDoctorIsD(s, e);
    } else {
      var c :| e.kind == DepartureKind(c);
      OnlyDepartureIsLowercase(s, c, e);
    }
  }

  lemma ArriveKeepsClock(s: Sim, c: Class, e: Event)
    ensures Arrive(s, c, e).pending == s.pending && Arrive(s, c, e).now == s.now
  {
  }

  lemma ProceedKeepsClock(s: Sim, time: int)
    ensures Proceed(s, time).pending == s.pending && Proceed(s, time).now == s.now
  {
  }

  /** Whatever the event, it sets the time, and at most the event itself leaves the pending arrivals. */
  lemma HandleSetsTime(s: Sim, e: Event)
    ensures Handle(s, e).now == e.time
    ensures Handle(s, e).pending == s.pending || Handle(s, e).pending == s.pending - multiset{e}
  {
    var s0 := s.(now := e.time);
    var s1 := s0.(pending := s.pending - multiset{e});
    if e.kind == 'R' {
      ArriveKeepsClock(s1, Reporter, e);
    } else if e.kind == 'P' {
      ArriveKeepsClock(s1, Patient, e);
    } else if e.kind == 'S' {
      ArriveKeepsClock(s1, Salesrep, e);
    } else {
      DepartureSetsTime(s, e);
    }
  }

  lemma DepartureSetsTime(s: Sim, e: Event)
    requires e.kind != 'R' && e.kind != 'P' && e.kind != 'S'
    ensures Handle(s, e).now == e.time && Handle(s, e).pending == s.pending
  {
    var s0 := s.(now := e.time);
    ProceedKeepsClock(s0.(doctor := true), e.time);
    ProceedKeepsClock(Leave(s0, Reporter), e.time);
    ProceedKeepsClock(Leave(s0, Patient), e.time);
    ProceedKeepsClock(Leave(s0, Salesrep), e.time);
  }

  // ------------------------------------------------------------ who is served

  /** The state in which somebody is called in: nobody of a class that goes first may be waiting. */
  ghost predicate GoesFirst(d: Desks, c: Class) {
    && (c == Patient ==> d.r.waiting == 0)
    && (c == Salesrep ==> d.r.waiting == 0 && d.p.waiting == 0)
  }

  /** From s to s' either nobody has been called in, or exactly visitor turn + 1 of a class that goes first. */
  ghost predicate CalledNext(s: Sim, s': Sim, time: int) {
    s'.log == s.log ||
    exists c :: GoesFirst(s'.desks, c) && At(s'.desks, c).turn == At(s.desks, c).turn + 1
                && |s'.log| == |s.log| + 1 && s'.log[..|s.log|] == s.log
                && s'.log[|s.log|].visitorClass == c && s'.log[|s.log|].start == time
                && s'.log[|s.log|].num == At(s'.desks, c).turn
  }

  lemma ArriveCalls(s0: Sim, c: Class, e: Event)
    requires Inv(s0)
    ensures CalledNext(s0, Arrive(s0, c, e), e.time)
  {
    var s1 := Admit(s0, c, e);
    var s' := Arrive(s0, c, e);
    if CalledAtOnce(s0, c, e) {
      ImmediateOnlyWhenIdle(s0, c, e);
      assert c != Reporter ==> At(s1.desks, Reporter).waiting == 0;
      assert c == Salesrep ==> At(s1.desks, Patient).waiting == 0;
      assert GoesFirst(s'.desks, c);
    }
  }

  lemma ProceedCalls(s: Sim, time: int)
    requires Deciding(s, time)
    ensures CalledNext(s, Proceed(s, time), time)
  {
    if TotalWaiting(s.desks) > 0 {
      var c := NextClass(s.desks);
      var s' := Proceed(s, time);
      assert s' == CallIn(s, c, time);
      assert GoesFirst(s'.desks, c);
    }
  }

  /**
   Whoever is called in starts at once, is the next number of the class, and no reporter waits
   when a patient starts, nor anybody else when a sales representative does.
   */
  lemma CalledInOrder(s: Sim, e: Event)
    requires Inv(s) && IsNext(s, e)
    ensures CalledNext(s, Handle(s, e), e.time)
  {
    NextIsOneOfThese(s, e);
    if e.kind == 'D' {
      DoctorDecides(s, e);
      OnlyDoctorIsD(s, e);
      ProceedCalls(s.(now := e.time, doctor := true), e.time);
    } else {
      var c :| e.kind == ArrivalKind(c) || e.kind == DepartureKind(c);
      if e.kind == ArrivalKind(c) {
        PoppedArrival(s, e);
        ArrivalIsArrive(s, c, e);
        ArriveCalls(Popped(s, e), c, e);
      } else {
        DepartureCalls(s, c, e);
      }
    }
  }

  lemma DepartureCalls(s: Sim, c: Class, e: Event)
    requires Inv(s) && IsNext(s, e) && e.kind == DepartureKind(c)
    ensures CalledNext(s, Handle(s, e), e.time)
  {
    OnlyDepartureIsLowercase(s, c, e);
    PendingIsNotBefore(s, e);
    DepartureIsProceed(s, c, e);
    LeavingLetsDoctorDecide(s, c, e.time);
    ProceedCalls(Leave(s.(now := e.time), c), e.time);
    LeaveKeepsTurns(s, c, e.time);
  }

  lemma LeaveKeepsTurns(s: Sim, c: Class, time: int)
    ensures forall b :: At(Leave(s.(now := time), c).desks, b).turn == At(s.desks, b).turn
  {
  }

  // ------------------------------------------------------------ the quotas, and when the doctor goes home

  /** Over as soon as the doctor is in, nobody waits, and 25 patients and 3 sales representatives have come. */
  ghost predicate OverWhenDone(s: Sim) {
    s.ended <==> s.doctor && TotalWaiting(s.desks) == 0 && s.desks.p.arrived >= 25 && s.desks.s.arrived >= 3
  }

  /** Up to 25 patients and 3 sales representatives are admitted, and reporters as long as the session lasts. */
  ghost predicate AdmitsByQuota(s: Sim) {
    && |s.desks.p.durations| == (if s.desks.p.arrived < 25 then s.desks.p.arrived else 25)
    && |s.desks.s.durations| == (if s.desks.s.arrived < 3 then s.desks.s.arrived else 3)
    && (!s.ended ==> |s.desks.r.durations| == s.desks.r.arrived)
  }

  lemma InitialKeepsRules(arrivals: multiset<Event>, from: int)
    ensures OverWhenDone(Initial(arrivals, from)) && AdmitsByQuota(Initial(arrivals, from))
  {
  }

  lemma TurningAwayKeepsRules(s: Sim, c: Class)
    requires OverWhenDone(s) && AdmitsByQuota(s)
    requires s.ended || !WithinQuota(c, At(s.desks, c).arrived + 1)
    ensures OverWhenDone(TurnAway(s, c)) && AdmitsByQuota(TurnAway(s, c))
  {
  }

  lemma AdmissionKeepsRules(s: Sim, c: Class, e: Event)
    requires OverWhenDone(s) && AdmitsByQuota(s) && !s.ended && WithinQuota(c, At(s.desks, c).arrived + 1)
    ensures OverWhenDone(Admit(s, c, e)) && AdmitsByQuota(Admit(s, c, e))
  {
    WaitingGrows(s.desks, c, Admit(s, c, e).desks);
  }

  lemma CallInKeepsRules(s: Sim, c: Class, time: int)
    ensures OverWhenDone(s) <==> OverWhenDone(CallIn(s, c, time))
    ensures AdmitsByQuota(s) <==> AdmitsByQuota(CallIn(s, c, time))
  {
  }

  lemma ArriveKeepsRules(s: Sim, c: Class, e: Event)
    requires OverWhenDone(s) && AdmitsByQuota(s)
    ensures OverWhenDone(Arrive(s, c, e)) && AdmitsByQuota(Arrive(s, c, e))
  {
    if s.ended || !WithinQuota(c, At(s.desks, c).arrived + 1) {
      TurningAwayKeepsRules(s, c);
    } else {
      AdmissionKeepsRules(s, c, e);
      CallInKeepsRules(Admit(s, c, e), c, e.time);
    }
  }

  lemma ProceedKeepsRules(s: Sim, time: int)
    requires s.doctor && !s.ended && AdmitsByQuota(s)
    ensures OverWhenDone(Proceed(s, time)) && AdmitsByQuota(Proceed(s, time))
  {
    CallInKeepsRules(s, NextClass(s.desks), time);
  }

  /** Every event keeps both rules. */
  lemma HandleKeepsRules(s: Sim, e: Event)
    requires Inv(s) && IsNext(s, e) && OverWhenDone(s) && AdmitsByQuota(s)
    ensures OverWhenDone(Handle(s, e)) && AdmitsByQuota(Handle(s, e))
  {
    NextIsOneOfThese(s, e);
    if e.kind == 'R' || e.kind == 'P' || e.kind == 'S' {
      ArrivalIsArrive(s, ClassOf(e.kind), e);
      ArriveKeepsRules(Popped(s, e), ClassOf(e.kind), e);
    } else if e.kind == 'D' {
      DoctorDecides(s, e);
      ProceedKeepsRules(s.(now := e.time, doctor := true), e.time);
    } else {
      var c :| e.kind == DepartureKind(c);
      DepartureKeepsRules(s, c, e);
    }
  }

  lemma DepartureKeepsRules(s: Sim, c: Class, e: Event)
    requires Inv(s) && IsNext(s, e) && e.kind == DepartureKind(c) && AdmitsByQuota(s)
    ensures OverWhenDone(Handle(s, e)) && AdmitsByQuota(Handle(s, e))
  {
    OnlyDepartureIsLowercase(s, c, e);
    DepartureIsProceed(s, c, e);
    ProceedKeepsRules(Leave(s.(now := e.time), c), e.time);
  }

  /** The durations asked for by those of class c who have come, in the order of coming. */
  ghost function Came(es: seq<Event>, c: Class): seq<int> {
    if es == [] then []
    else
      var last := es[|es| - 1];
      Came(es[..|es| - 1], c) + (if last.kind == ArrivalKind(c) then [last.duration] else [])
  }

  /** The admitted are the first that came, with the durations they asked for. */
  ghost predicate FirstComers(s: Sim, c: Class, came: seq<int>) {
    At(s.desks, c).arrived == |came| && At(s.desks, c).durations <= came
  }

  lemma CallInKeepsComers(s: Sim, c: Class, time: int, b: Class)
    ensures At(CallIn(s, c, time).desks, b).arrived == At(s.desks, b).arrived
    ensures At(CallIn(s, c, time).desks, b).durations == At(s.desks, b).durations
  {
  }

  lemma ProceedKeepsComers(s: Sim, time: int, b: Class)
    ensures At(Proceed(s, time).desks, b).arrived == At(s.desks, b).arrived
    ensures At(Proceed(s, time).desks, b).durations == At(s.desks, b).durations
  {
    CallInKeepsComers(s, NextClass(s.desks), time, b);
  }

  lemma LeaveKeepsComers(s: Sim, c: Class, b: Class)
    ensures At(Leave(s, c).desks, b).arrived == At(s.desks, b).arrived
    ensures At(Leave(s, c).desks, b).durations == At(s.desks, b).durations
  {
  }

  lemma ArriveKeepsFirstComers(s: Sim, c: Class, e: Event, b: Class, came: seq<int>)
    requires AdmitsByQuota(s) && FirstComers(s, b, came)
    ensures FirstComers(Arrive(s, c, e), b, came + if b == c then [e.duration] else [])
  {
    CallInKeepsComers(Admit(s, c, e), c, e.time, b);
    if b == c && !s.ended && WithinQuota(c, At(s.desks, c).arrived + 1) {
      assert |At(s.desks, c).durations| == |came|;
      assert At(s.desks, c).durations == came;
    }
  }

  lemma HandleKeepsFirstComers(s: Sim, e: Event, b: Class, came: seq<int>)
    requires Inv(s) && IsNext(s, e) && AdmitsByQuota(s) && FirstComers(s, b, came)
    ensures FirstComers(Handle(s, e), b, came + if e.kind == ArrivalKind(b) then [e.duration] else [])
  {
    NextIsOneOfThese(s, e);
    if e.kind == 'R' || e.kind == 'P' || e.kind == 'S' {
      var c := ClassOf(e.kind);
      ArrivalIsArrive(s, c, e);
      ArriveKeepsFirstComers(Popped(s, e), c, e, b, came);
      assert e.kind == ArrivalKind(b) <==> b == c;
    } else {
      OthersKeepComers(s, e, b);
      assert e.kind != ArrivalKind(b);
      assert came + [] == came;
    }
  }

  lemma OthersKeepComers(s: Sim, e: Event, b: Class)
    requires e.kind != 'R' && e.kind != 'P' && e.kind != 'S'
    ensures At(Handle(s, e).desks, b).arrived == At(s.desks, b).arrived
    ensures At(Handle(s, e).desks, b).durations == At(s.desks, b).durations
  {
    var s0 := s.(now := e.time);
    ProceedKeepsComers(s0.(doctor := true), e.time, b);
    forall c
      ensures At(Proceed(Leave(s0, c), e.time).desks, b).arrived == At(s.desks, b).arrived
      ensures At(Proceed(Leave(s0, c), e.time).desks, b).durations == At(s.desks, b).durations
    {
      LeaveKeepsComers(s0, c, b);
      ProceedKeepsComers(Leave(s0, c), e.time, b);
    }
  }

  // ------------------------------------------------------------ runs

  /** The state after these events have been handled. */
  ghost function After(s: Sim, es: seq<Event>): Sim {
    if es == [] then s else Handle(After(s, es[..|es| - 1]), es[|es| - 1])
  }

  /** Each event was the queue's next when it was handled. */
  ghost predicate EachIsNext(s: Sim, es: seq<Event>) {
    es == [] || (EachIsNext(s, es[..|es| - 1]) && IsNext(After(s, es[..|es| - 1]), es[|es| - 1]))
  }

  lemma OneMore(s: Sim, es: seq<Event>, e: Event)
    requires EachIsNext(s, es) && IsNext(After(s, es), e)
    ensures After(s, es + [e]) == Handle(After(s, es), e) && EachIsNext(s, es + [e])
  {
    assert (es + [e])[..|es|] == es;
  }

  ghost predicate InTime(es: seq<Event>) {
    forall i, j :: 0 <= i < j < |es| ==> es[i].time <= es[j].time
  }

  lemma OneMoreInTime(es: seq<Event>, e: Event)
    requires InTime(es) && (es != [] ==> es[|es| - 1].time <= e.time)
    ensures InTime(es + [e])
  {
    assert es != [] ==> forall i :: 0 <= i < |es| ==> es[i].time <= es[|es| - 1].time;
  }

  /**
   Over a whole run the invariant holds throughout, no event lies before an earlier one, and the session
   is over exactly when its work is done.
   */
  lemma {:induction false} WholeRunInOrder(s: Sim, es: seq<Event>)
    requires Inv(s) && EachIsNext(s, es)
    ensures Inv(After(s, es)) && InTime(es)
    ensures es != [] ==> After(s, es).now == es[|es| - 1].time
    ensures OverWhenDone(s) && AdmitsByQuota(s) ==>
              var s' := After(s, es);
              AdmitsByQuota(s') &&
              (s'.ended <==> s'.doctor && TotalWaiting(s'.desks) == 0
                             && s'.desks.p.arrived >= 25 && s'.desks.s.arrived >= 3)
  {
    if es != [] {
      var front, e := es[..|es| - 1], es[|es| - 1];
      assert es == front + [e];
      WholeRunInOrder(s, front);
      OneEventInOrder(After(s, front), e);
      OneMoreInTime(front, e);
      if OverWhenDone(s) && AdmitsByQuota(s) {
        HandleKeepsRules(After(s, front), e);
      }
    }
  }

  lemma OneEventInOrder(s: Sim, e: Event)
    requires Inv(s) && IsNext(s, e)
    ensures Inv(Handle(s, e)) && s.now <= e.time && Handle(s, e).now == e.time
  {
    HandleKeepsInv(s, e);
    TimesDoNotDecrease(s, e);
  }

  /** In every run from the start the first 25 patients and 3 sales representatives that come are admitted. */
  lemma {:induction false} FirstComersAreAdmitted(arrivals: multiset<Event>, from: int, es: seq<Event>)
    requires Inv(Initial(arrivals, from)) && EachIsNext(Initial(arrivals, from), es)
    ensures var s := After(Initial(arrivals, from), es);
            && (forall c :: FirstComers(s, c, Came(es, c)))
            && |s.desks.p.durations| == (if |Came(es, Patient)| < 25 then |Came(es, Patient)| else 25)
            && |s.desks.s.durations| == (if |Came(es, Salesrep)| < 3 then |Came(es, Salesrep)| else 3)
            && (!s.ended ==> s.desks.r.durations == Came(es, Reporter))
  {
    var s0 := Initial(arrivals, from);
    InitialKeepsRules(arrivals, from);
    WholeRunInOrder(s0, es);
    if es != [] {
      var front, e := es[..|es| - 1], es[|es| - 1];
      FirstComersAreAdmitted(arrivals, from, front);
      WholeRunInOrder(s0, front);
      forall c
        ensures FirstComers(After(s0, es), c, Came(es, c))
      {
        HandleKeepsFirstComers(After(s0, front), e, c, Came(front, c));
      }
    }
    var s := After(s0, es);
    assert FirstComers(s, Patient, Came(es, Patient)) && FirstComers(s, Salesrep, Came(es, Salesrep));
    assert FirstComers(s, Reporter, Came(es, Reporter));
  }

  /** When nothing is left to do, every admitted visitor has been called in once, in number order, one at a time. */
  lemma AllServedAtTheEnd(s: Sim)
    requires Inv(s) && Queue(s) == multiset{}
    ensures s.doctor && forall c :: At(s.desks, c).turn == |At(s.desks, c).durations| && At(s.desks, c).waiting == 0
    ensures forall c :: NumbersOf(s.log, c) == UpTo(|At(s.desks, c).durations|)
    ensures Disjoint(s.log)
  {
    assert |Queue(s)| == 0;
    forall c
      ensures At(s.desks, c).turn == |At(s.desks, c).durations| && At(s.desks, c).waiting == 0
    {
      assert DeskOk(s, c);
    }
  }
}
