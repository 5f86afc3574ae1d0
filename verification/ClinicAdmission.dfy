/** One admission by the threads, from main's wake-up of the doctor to reading the duration, is one call-in. */
module ClinicAdmission {
  import opened Counting
  import opened Visitors
  import opened ClinicThreads

  ghost function MainLeft(m: MainPc): nat {
    match m
    case Waking(_) => 7
    case AtDoctor(_) => 6
    case InDoctor(_) => 5
    case Calling(_) => 4
    case AtVisitor(_) => 3
    case InVisitor(_) => 2
    case Reading(_) => 1
    case Idle => 0
    case Over => 0
  }

  ghost function DoctorLeft(d: DoctorPc): nat {
    match d
    case Checking => 3
    case AtBarrier(_) => 2
    case InBarrier(_) => 1
    case Sleeping => 0
    case Left => 0
  }

  ghost function VisitorLeft(v: VisitorPc): nat {
    match v
    case VChecking => 3
    case VAtBarrier => 2
    case VInBarrier => 1
    case VSleeping => 0
    case VGone => 0
  }

  ghost function LineLeft(l: Line): seq<int> {
    seq(|l.pcs|, i requires 0 <= i < |l.pcs| => VisitorLeft(l.pcs[i]))
  }

  ghost function OthersLeft(s: State): int {
    DoctorLeft(s.doctor) + Sum(LineLeft(s.lines.r)) + Sum(LineLeft(s.lines.p)) + Sum(LineLeft(s.lines.s))
  }

  lemma OthersLeftIsNatural(s: State)
    ensures OthersLeft(s) >= 0
  {
    SumOfNaturals(LineLeft(s.lines.r));
    SumOfNaturals(LineLeft(s.lines.p));
    SumOfNaturals(LineLeft(s.lines.s));
  }

  /** A visitor's own step shortens its class's remaining work and touches no other class. */
  lemma VisitorStepDescends(s: State, s': State, c: Class, i: nat)
    requires i < |At(s.lines, c).pcs| && |At(s'.lines, c).pcs| == |At(s.lines, c).pcs|
    requires forall b :: b != c ==> At(s'.lines, b) == At(s.lines, b)
    requires At(s'.lines, c).pcs == At(s.lines, c).pcs[i := At(s'.lines, c).pcs[i]]
    requires VisitorLeft(At(s'.lines, c).pcs[i]) < VisitorLeft(At(s.lines, c).pcs[i])
    requires s'.doctor == s.doctor
    ensures OthersLeft(s') < OthersLeft(s)
  {
    var l, l' := At(s.lines, c), At(s'.lines, c);
    assert LineLeft(l') == LineLeft(l)[i := VisitorLeft(l'.pcs[i])];
    SumOfUpdate(LineLeft(l), i, VisitorLeft(l'.pcs[i]));
    assert s.lines.r == At(s.lines, Reporter) && s'.lines.r == At(s'.lines, Reporter);
    assert s.lines.p == At(s.lines, Patient) && s'.lines.p == At(s'.lines, Patient);
    assert s.lines.s == At(s.lines, Salesrep) && s'.lines.s == At(s'.lines, Salesrep);
  }

  /** A step that is neither spurious nor main's start of a new operation. */
  ghost predicate Real(s: State, a: Action) {
    Enabled(s, a) && !Spurious(a) && !a.Create? && !a.Begin? && !a.BeginStop?
  }

  lemma MainOrDoctorDescends(s: State, a: Action)
    requires Inv(s) && Busy(s.main) && Real(s, a) && !a.VisitorCheck? && !a.VisitorMeets?
    ensures var s' := Apply(s, a);
            MainLeft(s'.main) < MainLeft(s.main) || (s'.main == s.main && OthersLeft(s') < OthersLeft(s))
  {
    if a.MeetVisitor? {
      assert LineOk(s, s.main.c);
    }
  }

  lemma VisitorDescends(s: State, a: Action)
    requires Inv(s) && Busy(s.main) && Real(s, a) && (a.VisitorCheck? || a.VisitorMeets?)
    ensures var s' := Apply(s, a);
            MainLeft(s'.main) < MainLeft(s.main) || (s'.main == s.main && OthersLeft(s') < OthersLeft(s))
  {
    var s' := Apply(s, a);
    assert LineOk(s, a.c);
    if s'.main == s.main {
      VisitorStepDescends(s, s', a.c, a.i);
    }
  }

  lemma RealStepDescends(s: State, a: Action)
    requires Inv(s) && Busy(s.main) && Real(s, a)
    ensures var s' := Apply(s, a);
            MainLeft(s'.main) < MainLeft(s.main) || (s'.main == s.main && OthersLeft(s') < OthersLeft(s))
  {
    if a.VisitorCheck? || a.VisitorMeets? {
      VisitorDescends(s, a);
    } else {
      MainOrDoctorDescends(s, a);
    }
  }

  // ------------------------------------------------------------ the admission of class c begun in s0

  ghost predicate BeforeCall(m: MainPc, c: Class) {
    m == Waking(Admit(c)) || m == AtDoctor(Admit(c)) || m == InDoctor(Admit(c)) || m == Calling(c)
  }

  ghost predicate Underway(s0: State, s: State, c: Class) {
    && (forall b :: At(s.lines, b).durations == At(s0.lines, b).durations)
    && (forall b :: b != c ==> At(s.lines, b).turn == At(s0.lines, b).turn)
    && (if BeforeCall(s.main, c) then At(s.lines, c).turn == At(s0.lines, c).turn
        else (s.main == AtVisitor(c) || s.main == InVisitor(c) || s.main == Reading(c) || s.main == Idle)
             && At(s.lines, c).turn == At(s0.lines, c).turn + 1)
  }

  lemma PassingKeepsDurations(s: State, c: Class, who: Party, b: Class)
    ensures At(PassVisitorBar(s, c, who).lines, b).durations == At(s.lines, b).durations
    ensures At(PassVisitorBar(s, c, who).lines, b).turn == At(s.lines, b).turn
  {
  }

  lemma BarrierKeepsDurations(s: State, c: Class, who: Party, b: Class)
    ensures At(ArriveVisitorBar(s, c, who).lines, b).durations == At(s.lines, b).durations
    ensures At(ArriveVisitorBar(s, c, who).lines, b).turn == At(s.lines, b).turn
  {
    match At(s.lines, c).bar
    case Empty =>
    case One(other) =>
      var s1 := s.(lines := With(s.lines, c, At(s.lines, c).(bar := Bar.Empty)));
      PassingKeepsDurations(s1, c, other, b);
      PassingKeepsDurations(PassVisitorBar(s1, c, other), c, who, b);
  }

  /** While main is busy, durations stay, and only main's call moves a turn. */
  lemma StepKeepsDurations(s: State, a: Action, b: Class)
    requires Busy(s.main) && Enabled(s, a)
    ensures At(Apply(s, a).lines, b).durations == At(s.lines, b).durations
    ensures At(Apply(s, a).lines, b).turn == At(s.lines, b).turn + (if a.Call? && s.main.c == b then 1 else 0)
  {
    if a.MeetVisitor? {
      BarrierKeepsDurations(s, s.main.c, Main, b);
    } else if a.VisitorMeets? {
      BarrierKeepsDurations(s, a.c, Visitor(a.i), b);
    }
  }

  lemma MainAfterStep(s: State, a: Action, c: Class)
    requires Inv(s) && Busy(s.main) && Enabled(s, a)
    requires BeforeCall(s.main, c) || s.main == AtVisitor(c) || s.main == InVisitor(c) || s.main == Reading(c)
    ensures var m := Apply(s, a).main;
            if BeforeCall(s.main, c) then (if a.Call? then m == AtVisitor(c) else BeforeCall(m, c))
            else !a.Call? && (m == AtVisitor(c) || m == InVisitor(c) || m == Reading(c) || m == Idle)
  {
    if a.VisitorMeets? {
      assert LineOk(s, a.c);
    } else if a.MeetVisitor? {
      assert LineOk(s, s.main.c);
    }
  }

  lemma StepKeepsUnderway(s0: State, s: State, c: Class, a: Action)
    requires Inv(s) && Underway(s0, s, c) && Busy(s.main) && Enabled(s, a)
    ensures Underway(s0, Apply(s, a), c)
  {
    MainAfterStep(s, a, c);
    StepKeepsDurations(s, a, Reporter);
    StepKeepsDurations(s, a, Patient);
    StepKeepsDurations(s, a, Salesrep);
  }

  ghost predicate RealStep(s: State, s': State) {
    Busy(s.main) ==> exists a :: Real(s, a) && s' == Apply(s, a)
  }

  /** Step i of the run is a real one while main is busy. */
  ghost predicate RealStepAt(run: nat -> State, i: nat) {
    RealStep(run(i), run(i + 1))
  }

  /** How far main's operation is from its end: first main's own steps, then everybody else's. */
  datatype Rank = Rank(main: nat, others: int)

  ghost function RankOf(s: State): (r: Rank)
    ensures r.others >= 0
  {
    OthersLeftIsNatural(s);
    Rank(MainLeft(s.main), OthersLeft(s))
  }

  ghost predicate Below(a: Rank, b: Rank) {
    a.main < b.main || (a.main == b.main && a.others < b.others)
  }

  lemma RealStepIsCloser(s: State, s': State)
    requires Inv(s) && Busy(s.main) && RealStep(s, s')
    ensures Inv(s') && Below(RankOf(s'), RankOf(s))
  {
    var a :| Real(s, a) && s' == Apply(s, a);
    StepKeepsInv(s, a);
    RealStepDescends(s, a);
  }

  lemma RealStepKeepsUnderway(s0: State, s: State, c: Class, s': State)
    requires Inv(s) && Underway(s0, s, c) && Busy(s.main) && RealStep(s, s')
    ensures Underway(s0, s', c)
  {
    var a :| Real(s, a) && s' == Apply(s, a);
    StepKeepsUnderway(s0, s, c, a);
  }

  lemma {:induction false} CompletesFrom(run: nat -> State, s0: State, c: Class, k: nat, r: Rank) returns (e: nat)
    requires forall j: nat :: RealStepAt(run, j)
    requires Inv(run(k)) && Underway(s0, run(k), c) && r == RankOf(run(k))
    ensures run(e).main == Idle && Inv(run(e)) && Underway(s0, run(e), c)
    decreases r.main, r.others
  {
    if run(k).main == Idle {
      e := k;
    } else {
      assert RealStepAt(run, k);
      RealStepIsCloser(run(k), run(k + 1));
      RealStepKeepsUnderway(s0, run(k), c, run(k + 1));
      e := CompletesFrom(run, s0, c, k + 1, RankOf(run(k + 1)));
    }
  }

  ghost predicate AdmittedNext(s0: State, s: State, c: Class) {
    var l0 := At(s0.lines, c);
    && l0.turn < |l0.durations|
    && At(s.lines, c).turn == l0.turn + 1
    && At(s.seen, c) == At(s0.seen, c) + [l0.durations[l0.turn]]
    && (forall b :: At(s.lines, b).durations == At(s0.lines, b).durations)
    && (forall b :: b != c ==> At(s.lines, b).turn == At(s0.lines, b).turn)
  }

  /**
   An admission always completes, in any interleaving of real steps; its whole effect for the
   simulation is that the class's turn has gone up by one and main has read that visitor's duration.
   */
  lemma AdmissionIsOneCallIn(run: nat -> State, c: Class)
    requires Inv(run(0)) && run(0).main == Waking(Admit(c))
    requires forall j: nat :: RealStepAt(run, j)
    ensures exists e :: run(e).main == Idle && AdmittedNext(run(0), run(e), c)
  {
    var e := CompletesFrom(run, run(0), c, 0, RankOf(run(0)));
    assert LineOk(run(0), c) && SeenOk(run(0), c);
    assert LineOk(run(e), c) && SeenOk(run(e), c);
    var l0, l := At(run(0).lines, c), At(run(e).lines, c);
    assert l.durations[..l0.turn + 1] == l.durations[..l0.turn] + [l.durations[l0.turn]];
    assert AdmittedNext(run(0), run(e), c);
  }

  // ------------------------------------------------------------ sending the doctor home

  ghost predicate Stopping(s0: State, s: State) {
    && (s.main == Waking(Stop) || s.main == AtDoctor(Stop) || s.main == InDoctor(Stop) || s.main == Over)
    && forall b :: At(s.lines, b).turn == At(s0.lines, b).turn
  }

  lemma RealStepKeepsStopping(s0: State, s: State, s': State)
    requires Inv(s) && Stopping(s0, s) && Busy(s.main) && RealStep(s, s')
    ensures Stopping(s0, s')
  {
    var a :| Real(s, a) && s' == Apply(s, a);
    MainKeepsStopping(s, a);
    StepKeepsDurations(s, a, Reporter);
    StepKeepsDurations(s, a, Patient);
    StepKeepsDurations(s, a, Salesrep);
  }

  lemma MainKeepsStopping(s: State, a: Action)
    requires Inv(s) && Enabled(s, a)
    requires s.main == Waking(Stop) || s.main == AtDoctor(Stop) || s.main == InDoctor(Stop)
    ensures var m := Apply(s, a).main;
            m == Waking(Stop) || m == AtDoctor(Stop) || m == InDoctor(Stop) || m == Over
    ensures !a.Call?
  {
    assert forall c :: LineOk(s, c);
  }

  lemma {:induction false} StopsFrom(run: nat -> State, s0: State, k: nat, r: Rank) returns (e: nat)
    requires forall j: nat :: RealStepAt(run, j)
    requires Inv(run(k)) && Stopping(s0, run(k)) && r == RankOf(run(k))
    ensures run(e).main == Over && Inv(run(e)) && Stopping(s0, run(e))
    decreases r.main, r.others
  {
    if run(k).main == Over {
      e := k;
    } else {
      assert RealStepAt(run, k);
      RealStepIsCloser(run(k), run(k + 1));
      RealStepKeepsStopping(s0, run(k), run(k + 1));
      e := StopsFrom(run, s0, k + 1, RankOf(run(k + 1)));
    }
  }

  /** The end of service completes too, in any interleaving: the doctor has left and nobody has been called in. */
  lemma StopSendsTheDoctorHome(run: nat -> State)
    requires Inv(run(0)) && run(0).main == Waking(Stop)
    requires forall j: nat :: RealStepAt(run, j)
    ensures exists e :: run(e).main == Over && run(e).doctor == Left
                        && forall b :: At(run(e).lines, b).turn == At(run(0).lines, b).turn
  {
    var e := StopsFrom(run, run(0), 0, RankOf(run(0)));
    assert DoctorOk(run(e));
  }
}
