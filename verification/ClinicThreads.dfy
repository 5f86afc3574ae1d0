/**
 Main, the doctor and the visitors as threads: turn counters, condition variables and
 two-party barriers.  A section under a mutex is one step; waiting on a condition gives the
 mutex up, and a sleeper may also wake for no reason.
 */
module ClinicThreads {
  import opened Visitors

  datatype Goal = Admit(c: Class) | Stop

  datatype MainPc = Idle | Waking(goal: Goal) | AtDoctor(goal: Goal) | InDoctor(goal: Goal)
                  | Calling(c: Class) | AtVisitor(c: Class) | InVisitor(c: Class) | Reading(c: Class) | Over

  datatype DoctorPc = Checking | Sleeping | AtBarrier(last: bool) | InBarrier(last: bool) | Left

  datatype VisitorPc = VChecking | VSleeping | VAtBarrier | VInBarrier | VGone

  datatype Party = Main | Doctor | Visitor(i: nat)

  /** A two-party barrier: nobody, or the one who waits for the other. */
  datatype Bar = Empty | One(who: Party)

  /** The threads of one class, in the order of their creation: visitor i has been given number i + 1. */
  datatype Line = Line(pcs: seq<VisitorPc>, durations: seq<int>, turn: nat, bar: Bar)

  /** `seen` records what main read after each admission of a class. */
  datatype State = State(main: MainPc, doctor: DoctorPc, lines: PerClass<Line>, bar: Bar,
                         asleep: bool, ended: bool, currEventDuration: int, seen: PerClass<seq<int>>)

  datatype Action = Create(c: Class, duration: int) | Begin(c: Class) | BeginStop | Wake | MeetDoctor
                  | Call | MeetVisitor | ReadDuration
                  | DoctorCheck | DoctorMeets | VisitorCheck(c: Class, i: nat) | VisitorMeets(c: Class, i: nat)
                  | DoctorSpurious | VisitorSpurious(c: Class, i: nat)

  predicate Spurious(a: Action) {
    a.DoctorSpurious? || a.VisitorSpurious?
  }

  ghost predicate Enabled(s: State, a: Action) {
    match a
    case Create(_, _) => s.main == Idle
    case Begin(c) => s.main == Idle && At(s.lines, c).turn < |At(s.lines, c).pcs|
    case BeginStop => s.main == Idle
    case Wake => s.main.Waking?
    case MeetDoctor => s.main.AtDoctor?
    case Call => s.main.Calling?
    case MeetVisitor => s.main.AtVisitor?
    case ReadDuration => s.main.Reading?
    case DoctorCheck => s.doctor == Checking
    case DoctorMeets => s.doctor.AtBarrier?
    case VisitorCheck(c, i) =>
      i < |At(s.lines, c).pcs| == |At(s.lines, c).durations| && At(s.lines, c).pcs[i] == VChecking
    case VisitorMeets(c, i) => i < |At(s.lines, c).pcs| && At(s.lines, c).pcs[i] == VAtBarrier
    case DoctorSpurious => s.doctor == Sleeping
    case VisitorSpurious(c, i) => i < |At(s.lines, c).pcs| && At(s.lines, c).pcs[i] == VSleeping
  }

  function AfterDoctor(goal: Goal): MainPc {
    if goal.Admit? then Calling(goal.c) else Over
  }

  /** The party waiting at the doctor's barrier, or just arriving there, goes on. */
  function PassDoctorBar(s: State, who: Party): State {
    match who
    case Main => if s.main.InDoctor? || s.main.AtDoctor? then s.(main := AfterDoctor(s.main.goal)) else s
    case Doctor =>
      if s.doctor.InBarrier? || s.doctor.AtBarrier? then s.(doctor := if s.doctor.last then Left else Checking)
      else s
    case Visitor(_) => s
  }

  function SetPc(l: Line, i: nat, pc: VisitorPc): Line {
    if i < |l.pcs| then l.(pcs := l.pcs[i := pc]) else l
  }

  function PassVisitorBar(s: State, c: Class, who: Party): State {
    match who
    case Main => if s.main == InVisitor(c) || s.main == AtVisitor(c) then s.(main := Reading(c)) else s
    case Visitor(i) => s.(lines := With(s.lines, c, SetPc(At(s.lines, c), i, VGone)))
    case Doctor => s
  }

  function ArriveDoctorBar(s: State, who: Party): State {
    match s.bar
    case Empty =>
      var s1 := s.(bar := One(who));
      if who.Main? && s.main.AtDoctor? then s1.(main := InDoctor(s.main.goal))
      else if who.Doctor? && s.doctor.AtBarrier? then s1.(doctor := InBarrier(s.doctor.last))
      else s1
    case One(other) => PassDoctorBar(PassDoctorBar(s.(bar := Empty), other), who)
  }

  function ArriveVisitorBar(s: State, c: Class, who: Party): State {
    var l := At(s.lines, c);
    match l.bar
    case Empty =>
      var s1 := s.(lines := With(s.lines, c, l.(bar := One(who))));
      if who.Main? then s1.(main := InVisitor(c))
      else if who.Visitor? then s1.(lines := With(s.lines, c, SetPc(l.(bar := One(who)), who.i, VInBarrier)))
      else s1
    case One(other) =>
      PassVisitorBar(PassVisitorBar(s.(lines := With(s.lines, c, l.(bar := Empty))), c, other), c, who)
  }

  /** A broadcast: every sleeper of the class has to look again. */
  ghost function Roused(pcs: seq<VisitorPc>): (r: seq<VisitorPc>)
    ensures |r| == |pcs|
  {
    seq(|pcs|, i requires 0 <= i < |pcs| => if pcs[i] == VSleeping then VChecking else pcs[i])
  }

  ghost function Apply(s: State, a: Action): State
    requires Enabled(s, a)
  {
    match a
    case Create(c, d) =>
      var l := At(s.lines, c);
      s.(lines := With(s.lines, c, l.(pcs := l.pcs + [VChecking], durations := l.durations + [d])))
    case Begin(c) => s.(main := Waking(Admit(c)))
    case BeginStop => s.(main := Waking(Stop))
    case Wake =>
      s.(main := AtDoctor(s.main.goal), asleep := false, ended := s.ended || s.main.goal.Stop?,
         doctor := if s.doctor == Sleeping then Checking else s.doctor)
    case MeetDoctor => ArriveDoctorBar(s, Main)
    case Call =>
      var l := At(s.lines, s.main.c);
      s.(main := AtVisitor(s.main.c),
         lines := With(s.lines, s.main.c, l.(turn := l.turn + 1, pcs := Roused(l.pcs))))
    case MeetVisitor => ArriveVisitorBar(s, s.main.c, Main)
    case ReadDuration =>
      s.(main := Idle, seen := With(s.seen, s.main.c, At(s.seen, s.main.c) + [s.currEventDuration]))
    case DoctorCheck =>
      if s.asleep then s.(doctor := Sleeping) else s.(doctor := AtBarrier(s.ended), asleep := true)
    case DoctorMeets => ArriveDoctorBar(s, Doctor)
    case VisitorCheck(c, i) =>
      var l := At(s.lines, c);
      if l.turn != i + 1 then s.(lines := With(s.lines, c, SetPc(l, i, VSleeping)))
      else s.(lines := With(s.lines, c, SetPc(l, i, VAtBarrier)), currEventDuration := l.durations[i])
    case VisitorMeets(c, i) => ArriveVisitorBar(s, c, Visitor(i))
    case DoctorSpurious => s.(doctor := Checking)
    case VisitorSpurious(c, i) => s.(lines := With(s.lines, c, SetPc(At(s.lines, c), i, VChecking)))
  }

  ghost predicate Start(s: State) {
    && s.main == Idle && s.doctor == Checking && s.bar == Empty && s.asleep && !s.ended
    && forall c :: At(s.lines, c) == Line([], [], 0, Empty) && At(s.seen, c) == []
  }

  // ------------------------------------------------------------ the invariant

  /** Visitors from number `from` + 1 on are looking at the turn or asleep. */
  ghost predicate Queueing(l: Line, from: nat) {
    forall i :: from <= i < |l.pcs| ==> l.pcs[i] == VChecking || l.pcs[i] == VSleeping
  }

  ghost predicate GoneBelow(l: Line, n: nat) {
    n <= |l.pcs| && forall i :: 0 <= i < n ==> l.pcs[i] == VGone
  }

  /** Nobody of the class is on the way to the doctor. */
  ghost predicate Resting(l: Line) {
    GoneBelow(l, l.turn) && Queueing(l, l.turn) && l.bar == Empty
  }

  /** Visitor number `turn` has been called and has not yet met main; `mainIn` says main is at the barrier. */
  ghost predicate Coming(l: Line, mainIn: bool, curr: int) {
    && 1 <= l.turn <= |l.pcs| == |l.durations|
    && GoneBelow(l, l.turn - 1) && Queueing(l, l.turn)
    && var v := l.turn - 1;
       match l.pcs[v]
       case VChecking => l.bar == if mainIn then One(Main) else Empty
       case VAtBarrier => curr == l.durations[v] && l.bar == if mainIn then One(Main) else Empty
       case VInBarrier => curr == l.durations[v] && !mainIn && l.bar == One(Visitor(v))
       case _ => false
  }

  /** The doctor, seen from main's step: awake only between main's wake-up and their meeting. */
  ghost predicate DoctorOk(s: State) {
    match s.main
    case AtDoctor(goal) =>
      s.ended == goal.Stop? &&
      (match s.doctor
       case Checking => !s.asleep && s.bar == Empty
       case AtBarrier(last) => s.asleep && s.bar == Empty && last == goal.Stop?
       case InBarrier(last) => s.asleep && s.bar == One(Doctor) && last == goal.Stop?
       case _ => false)
    case InDoctor(goal) =>
      s.ended == goal.Stop? && s.bar == One(Main) &&
      (match s.doctor
       case Checking => !s.asleep
       case AtBarrier(last) => s.asleep && last == goal.Stop?
       case _ => false)
    case Over => s.doctor == Left && s.bar == Empty
    case _ => s.asleep && !s.ended && s.bar == Empty && (s.doctor == Checking || s.doctor == Sleeping)
  }

  ghost predicate LineOk(s: State, c: Class) {
    var l := At(s.lines, c);
    && |l.pcs| == |l.durations|
    && (if s.main == AtVisitor(c) then Coming(l, false, s.currEventDuration)
        else if s.main == InVisitor(c) then Coming(l, true, s.currEventDuration)
        else Resting(l))
    && (s.main == Reading(c) ==> 1 <= l.turn <= |l.durations| && s.currEventDuration == l.durations[l.turn - 1])
    && (s.main in {Calling(c), Waking(Admit(c)), AtDoctor(Admit(c)), InDoctor(Admit(c))} ==> l.turn < |l.pcs|)
  }

  ghost predicate Midway(s: State, c: Class) {
    s.main == AtVisitor(c) || s.main == InVisitor(c) || s.main == Reading(c)
  }

  /** What main has read is the duration of each admitted visitor, in number order. */
  ghost predicate SeenOk(s: State, c: Class) {
    var l := At(s.lines, c);
    var done := if Midway(s, c) then l.turn - 1 else l.turn;
    0 <= done <= |l.durations| && At(s.seen, c) == l.durations[..done]
  }

  ghost predicate Inv(s: State) {
    DoctorOk(s) && forall c :: LineOk(s, c) && SeenOk(s, c)
  }

  lemma StartHasInvariant(s: State)
    requires Start(s)
    ensures Inv(s)
  {
  }

  // ------------------------------------------------------------ every step keeps it

  lemma DoctorSideKeepsInv(s: State, a: Action)
    requires Inv(s) && Enabled(s, a)
    requires a.Begin? || a.BeginStop? || a.Wake? || a.MeetDoctor?
             || a.DoctorCheck? || a.DoctorMeets? || a.DoctorSpurious?
    ensures Inv(Apply(s, a))
  {
    var s' := Apply(s, a);
    forall c
      ensures LineOk(s', c) && SeenOk(s', c)
    {
      assert LineOk(s, c) && SeenOk(s, c);
    }
  }

  lemma CreateKeepsInv(s: State, c: Class, d: int)
    requires Inv(s) && Enabled(s, Create(c, d))
    ensures Inv(Apply(s, Create(c, d)))
  {
    var s' := Apply(s, Create(c, d));
    forall b
      ensures LineOk(s', b) && SeenOk(s', b)
    {
      assert LineOk(s, b) && SeenOk(s, b);
    }
  }

  lemma CallKeepsInv(s: State)
    requires Inv(s) && Enabled(s, Call)
    ensures Inv(Apply(s, Call))
  {
    var s' := Apply(s, Call);
    forall b
      ensures LineOk(s', b) && SeenOk(s', b)
    {
      assert LineOk(s, b) && SeenOk(s, b);
    }
  }

  lemma ReadKeepsInv(s: State)
    requires Inv(s) && Enabled(s, ReadDuration)
    ensures Inv(Apply(s, ReadDuration))
  {
    var s' := Apply(s, ReadDuration);
    var c := s.main.c;
    assert LineOk(s, c) && SeenOk(s, c);
    var l := At(s.lines, c);
    assert l.durations[..l.turn] == l.durations[..l.turn - 1] + [l.durations[l.turn - 1]];
    forall b
      ensures LineOk(s', b) && SeenOk(s', b)
    {
      assert LineOk(s, b) && SeenOk(s, b);
    }
  }

  lemma VisitorSleepsKeepsInv(s: State, c: Class, i: nat)
    requires Inv(s) && Enabled(s, VisitorCheck(c, i)) && At(s.lines, c).turn != i + 1
    ensures Inv(Apply(s, VisitorCheck(c, i)))
  {
    var s' := Apply(s, VisitorCheck(c, i));
    assert LineOk(s, c) && SeenOk(s, c);
    forall b
      ensures LineOk(s', b) && SeenOk(s', b)
    {
      assert LineOk(s, b) && SeenOk(s, b);
    }
  }

  /** The visitor whose turn it is can only find out between main's call and their meeting. */
  lemma CalledVisitorIsExpected(s: State, c: Class, i: nat)
    requires Inv(s) && Enabled(s, VisitorCheck(c, i)) && At(s.lines, c).turn == i + 1
    ensures s.main == AtVisitor(c) || s.main == InVisitor(c)
  {
    assert LineOk(s, c);
  }

  lemma VisitorComesKeepsInv(s: State, c: Class, i: nat)
    requires Inv(s) && Enabled(s, VisitorCheck(c, i)) && At(s.lines, c).turn == i + 1
    ensures Inv(Apply(s, VisitorCheck(c, i)))
  {
    CalledVisitorIsExpected(s, c, i);
    var s' := Apply(s, VisitorCheck(c, i));
    assert LineOk(s, c) && SeenOk(s, c);
    forall b
      ensures LineOk(s', b) && SeenOk(s', b)
    {
      assert LineOk(s, b) && SeenOk(s, b);
    }
  }

  lemma VisitorCheckKeepsInv(s: State, c: Class, i: nat)
    requires Inv(s) && Enabled(s, VisitorCheck(c, i))
    ensures Inv(Apply(s, VisitorCheck(c, i)))
  {
    if At(s.lines, c).turn == i + 1 {
      VisitorComesKeepsInv(s, c, i);
    } else {
      VisitorSleepsKeepsInv(s, c, i);
    }
  }

  lemma VisitorSpuriousKeepsInv(s: State, c: Class, i: nat)
    requires Inv(s) && Enabled(s, VisitorSpurious(c, i))
    ensures Inv(Apply(s, VisitorSpurious(c, i)))
  {
    var s' := Apply(s, VisitorSpurious(c, i));
    assert LineOk(s, c) && SeenOk(s, c);
    forall b
      ensures LineOk(s', b) && SeenOk(s', b)
    {
      assert LineOk(s, b) && SeenOk(s, b);
    }
  }

  lemma VisitorMeetsKeepsInv(s: State, c: Class, i: nat)
    requires Inv(s) && Enabled(s, VisitorMeets(c, i))
    ensures Inv(Apply(s, VisitorMeets(c, i)))
  {
    var s' := Apply(s, VisitorMeets(c, i));
    assert LineOk(s, c) && SeenOk(s, c);
    assert s.main == AtVisitor(c) || s.main == InVisitor(c);
    forall b
      ensures LineOk(s', b) && SeenOk(s', b)
    {
      assert LineOk(s, b) && SeenOk(s, b);
    }
  }

  lemma MeetVisitorKeepsInv(s: State)
    requires Inv(s) && Enabled(s, MeetVisitor)
    ensures Inv(Apply(s, MeetVisitor))
  {
    var s' := Apply(s, MeetVisitor);
    var c := s.main.c;
    assert LineOk(s, c) && SeenOk(s, c);
    forall b
      ensures LineOk(s', b) && SeenOk(s', b)
    {
      assert LineOk(s, b) && SeenOk(s, b);
    }
  }

  lemma StepKeepsInv(s: State, a: Action)
    requires Inv(s) && Enabled(s, a)
    ensures Inv(Apply(s, a))
  {
    match a
    case Create(c, d) => CreateKeepsInv(s, c, d);
    case Call => CallKeepsInv(s);
    case ReadDuration => ReadKeepsInv(s);
    case MeetVisitor => MeetVisitorKeepsInv(s);
    case VisitorCheck(c, i) => VisitorCheckKeepsInv(s, c, i);
    case VisitorMeets(c, i) => VisitorMeetsKeepsInv(s, c, i);
    case VisitorSpurious(c, i) => VisitorSpuriousKeepsInv(s, c, i);
    case _ => DoctorSideKeepsInv(s, a);
  }

  // ------------------------------------------------------------ what it buys

  /** Whoever finds somebody at a barrier finds main or is main, and the other is the intended thread. */
  lemma MeetingsAreIntended(s: State, a: Action)
    requires Inv(s) && Enabled(s, a)
    ensures a.MeetDoctor? && s.bar != Empty ==> s.bar == One(Doctor)
    ensures a.DoctorMeets? && s.bar != Empty ==> s.bar == One(Main)
    ensures a.MeetVisitor? && At(s.lines, s.main.c).bar != Empty ==>
              var l := At(s.lines, s.main.c);
              1 <= l.turn && l.bar == One(Visitor(l.turn - 1))
    ensures a.VisitorMeets? ==>
              a.i == At(s.lines, a.c).turn - 1 && (At(s.lines, a.c).bar != Empty ==> At(s.lines, a.c).bar == One(Main))
  {
    if a.MeetVisitor? {
      assert LineOk(s, s.main.c);
    } else if a.VisitorMeets? {
      assert LineOk(s, a.c);
    }
  }

  /** The turn never runs ahead of the visitors created, and main has read one duration per visitor admitted. */
  lemma TurnsStayBehindArrivals(s: State, c: Class)
    requires Inv(s)
    ensures At(s.lines, c).turn <= |At(s.lines, c).pcs| == |At(s.lines, c).durations|
    ensures At(s.seen, c) <= At(s.lines, c).durations
    ensures s.main == Idle ==> |At(s.seen, c)| == At(s.lines, c).turn
  {
    assert LineOk(s, c) && SeenOk(s, c);
  }

  /** When main reads the duration, it is that of the visitor just admitted. */
  lemma DurationBelongsToVisitor(s: State, c: Class)
    requires Inv(s) && s.main == Reading(c)
    ensures 1 <= At(s.lines, c).turn <= |At(s.lines, c).durations|
    ensures s.currEventDuration == At(s.lines, c).durations[At(s.lines, c).turn - 1]
  {
    assert LineOk(s, c);
  }

  /** Main is inside an operation that others have to help along. */
  predicate Busy(m: MainPc) {
    m != Idle && m != Over
  }

  /** No wake-up is lost: while main is busy somebody can take a real step, without any spurious wake-up. */
  lemma NoDeadlock(s: State) returns (a: Action)
    requires Inv(s) && Busy(s.main)
    ensures Enabled(s, a) && !Spurious(a) && !a.Create? && !a.Begin? && !a.BeginStop?
  {
    match s.main
    case Waking(_) => a := Wake;
    case AtDoctor(_) => a := MeetDoctor;
    case InDoctor(_) => a := if s.doctor == Checking then DoctorCheck else DoctorMeets;
    case Calling(_) => a := Call;
    case AtVisitor(_) => a := MeetVisitor;
    case InVisitor(c) =>
      assert LineOk(s, c);
      var v := At(s.lines, c).turn - 1;
      a := if At(s.lines, c).pcs[v] == VChecking then VisitorCheck(c, v) else VisitorMeets(c, v);
    case Reading(_) => a := ReadDuration;
  }
}
