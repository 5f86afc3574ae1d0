/** The tree sum's leader and exit counter are the thread library's join, seen through node numbers as thread ids. */
module TreeSumJoin {
  import opened Counting
  import opened TreeSum
  import J = Join

  /** The leader's slot, then the threads created so far, all joinable. */
  ghost function Table(n: nat, created: nat): (t: seq<J.Slot>)
    ensures |t| == created + 1 && t[0] == J.Slot(n, J.Joinable)
    ensures forall i: nat :: i < created ==> t[i + 1] == J.Slot(i, J.Joinable)
  {
    [J.Slot(n, J.Joinable)] + seq(created, i requires 0 <= i < created => J.Slot(i, J.Joinable))
  }

  ghost function JoinView(c: Setup, s: State): J.State {
    J.State(Table(|c.parent|, s.created), s.created, s.joinSem, Posted(s), Posted(s),
            match s.leader
            case Creating => J.Creating
            case Joining => J.Exiting(|c.parent|)
            case Printed(_) => J.Returned(|c.parent|))
  }

  ghost predicate IsLibraryStep(v: J.State, v': J.State)
    requires v.table != []
  {
    exists b :: J.Enabled(v, b) && v' == J.Apply(v, b)
  }

  lemma TableGrows(n: nat, created: nat)
    ensures Table(n, created + 1) == Table(n, created) + [J.Slot(created, J.Joinable)]
  {
  }

  lemma NodeIsThread(n: nat, created: nat, i: nat)
    requires i < created <= n
    ensures J.IsThread(Table(n, created), i) && J.TypeFound(Table(n, created), i) == J.Joinable
  {
    assert Table(n, created)[i + 1].tid == i;
    var k := J.Lookup(Table(n, created), i, 1);
    assert k < |Table(n, created)| ==> Table(n, created)[k].jointype == J.Joinable;
  }

  lemma CreateIsLibraryStep(c: Setup, s: State, rank: seq<nat>)
    requires Inv(c, s, rank) && Enabled(c, s, Create)
    ensures var v, v' := JoinView(c, s), JoinView(c, Apply(c, s, Create));
            if s.created < |c.parent| then
              var a := J.Create(|c.parent|, s.created, J.Joinable);
              J.Enabled(v, a) && v' == J.Apply(v, a)
            else J.Enabled(v, J.CallExit) && v' == J.Apply(v, J.CallExit)
  {
    TableGrows(|c.parent|, s.created);
    assert Posted(Apply(c, s, Create)) == Posted(s);
  }

  lemma PostIsLibraryStep(c: Setup, s: State, rank: seq<nat>, i: nat)
    requires Inv(c, s, rank) && Enabled(c, s, Post(i))
    ensures var v, v' := JoinView(c, s), JoinView(c, Apply(c, s, Post(i)));
            J.Enabled(v, J.ThreadExit(i)) && v' == J.Apply(v, J.ThreadExit(i))
  {
    NodeIsThread(|c.parent|, s.created, i);
    OnlyPostPosts(c, s, Post(i));
  }

  lemma JoinIsLibraryStep(c: Setup, s: State, rank: seq<nat>)
    requires Inv(c, s, rank) && s.leader == Joining
    ensures Enabled(c, s, Join) <==> J.Enabled(JoinView(c, s), J.Return)
    ensures Enabled(c, s, Join) ==> JoinView(c, Apply(c, s, Join)) == J.Apply(JoinView(c, s), J.Return)
  {
    assert |c.parent| > 0;
    assert Enabled(c, s, Join) ==> Posted(Apply(c, s, Join)) == Posted(s);
  }

  lemma OthersLeaveTheJoin(c: Setup, s: State, a: Action)
    requires Sized(c, s) && Enabled(c, s, a) && !a.Create? && !a.Post? && !a.Join?
    ensures JoinView(c, Apply(c, s, a)) == JoinView(c, s)
  {
    OnlyPostPosts(c, s, a);
    var s' := Apply(c, s, a);
    assert s'.created == s.created && s'.joinSem == s.joinSem && s'.leader == s.leader;
  }

  /** Every step of the tree sum is a step of the library's join or does not concern it. */
  lemma StepIsLibraryStep(c: Setup, s: State, rank: seq<nat>, a: Action)
    requires Inv(c, s, rank) && Enabled(c, s, a)
    ensures var v, v' := JoinView(c, s), JoinView(c, Apply(c, s, a));
            v' == v || IsLibraryStep(v, v')
  {
    match a
    case Create => CreateIsLibraryStep(c, s, rank);
    case Post(i) => PostIsLibraryStep(c, s, rank, i);
    case Join => JoinIsLibraryStep(c, s, rank);
    case _ => OthersLeaveTheJoin(c, s, a);
  }
}
