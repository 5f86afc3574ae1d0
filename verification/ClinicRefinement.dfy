/** What the simulation takes as one call-in is what main, the doctor and the visitors' threads do together. */
module ClinicRefinement {
  import opened Visitors
  import opened EventHeap
  import S = Clinic
  import T = ClinicThreads
  import A = ClinicAdmission

  /** Turns and durations of every class are the same on both sides. */
  ghost predicate Matches(lines: PerClass<T.Line>, desks: S.Desks) {
    forall c :: At(lines, c).turn == At(desks, c).turn && At(lines, c).durations == At(desks, c).durations
  }

  lemma StartsMatch(s: T.State, arrivals: multiset<Event>, from: int)
    requires T.Start(s)
    ensures Matches(s.lines, S.Initial(arrivals, from).desks)
  {
  }

  lemma CallInMoves(sim: S.Sim, c: Class, time: int, b: Class)
    ensures var d, d' := At(sim.desks, b), At(S.CallIn(sim, c, time).desks, b);
            d'.durations == d.durations && d'.turn == d.turn + (if b == c then 1 else 0)
  {
  }

  /**
   An admission of the threads that starts from the simulation's turns and durations ends with those of the
   simulation after the call-in, and main has read the duration the simulation uses.
   */
  lemma AdmissionIsCallIn(run: nat -> T.State, c: Class, sim: S.Sim, time: int)
    requires T.Inv(run(0)) && run(0).main == T.Waking(T.Admit(c))
    requires forall j: nat :: A.RealStepAt(run, j)
    requires Matches(run(0).lines, sim.desks)
    ensures exists e :: Admitted(run(0), run(e), c, sim, time)
  {
    A.AdmissionIsOneCallIn(run, c);
    var e :| run(e).main == T.Idle && A.AdmittedNext(run(0), run(e), c);
    forall b
      ensures At(run(e).lines, b).turn == At(S.CallIn(sim, c, time).desks, b).turn
      ensures At(run(e).lines, b).durations == At(S.CallIn(sim, c, time).desks, b).durations
    {
      CallInMoves(sim, c, time, b);
    }
    assert Admitted(run(0), run(e), c, sim, time);
  }

  ghost predicate Admitted(s0: T.State, s: T.State, c: Class, sim: S.Sim, time: int) {
    && s.main == T.Idle
    && Matches(s.lines, S.CallIn(sim, c, time).desks)
    && At(s.seen, c) == At(s0.seen, c) + [S.DurationOf(At(sim.desks, c))]
  }

  /** Creating a visitor's thread is the simulation's admission of an arrival, before anybody is called in. */
  lemma CreationIsAdmission(s: T.State, c: Class, sim: S.Sim, e: Event)
    requires T.Inv(s) && s.main == T.Idle && Matches(s.lines, sim.desks)
    ensures T.Enabled(s, T.Create(c, e.duration))
    ensures Matches(T.Apply(s, T.Create(c, e.duration)).lines, S.Admit(sim, c, e).desks)
  {
  }

  /** An admission can begin whenever the simulation has somebody to call in, and begins without moving a turn. */
  lemma CallInCanBegin(s: T.State, c: Class, sim: S.Sim)
    requires T.Inv(s) && s.main == T.Idle && Matches(s.lines, sim.desks)
    requires At(sim.desks, c).turn < |At(sim.desks, c).durations|
    ensures T.Enabled(s, T.Begin(c))
    ensures T.Apply(s, T.Begin(c)).main == T.Waking(T.Admit(c)) && Matches(T.Apply(s, T.Begin(c)).lines, sim.desks)
  {
    assert T.LineOk(s, c);
  }
}
