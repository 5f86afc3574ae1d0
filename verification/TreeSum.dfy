/**
 One thread per tree node adding its total to its parent, and the leader that prints the
 root's sum after joining all of them.
 */
module TreeSum {
  import opened Counting
  import opened Trees
  import B = Barrier

  /** The read-modify-write of the parent's sum, between lock and unlock of the parent's mutex. */
  datatype Work = Idle | Locked | Read(seen: int) | Written | Added

  /** A node's thread: its own barrier, the addition to the parent, the parent's barrier, the exit post. */
  datatype Thread = Thread(own: B.Role, work: Work, par: B.Role, posted: bool)

  datatype Leader = Creating | Joining | Printed(value: int)

  datatype State = State(threads: seq<Thread>, barriers: seq<B.Barrier>, locks: seq<nat>, sum: seq<int>,
                         created: nat, joinSem: nat, leader: Leader)

  /** parent links, the root, and the values the sum array starts with. */
  datatype Setup = Setup(parent: seq<int>, root: nat, init: seq<int>)

  datatype Action = Create | Join | Own(i: nat) | Lock(i: nat) | Load(i: nat) | Store(i: nat) | Unlock(i: nat)
                  | Par(i: nat) | Post(i: nat)

  ghost predicate WellFormed(c: Setup) {
    IsTree(c.parent, c.root) && |c.init| == |c.parent|
  }

  ghost function Parties(c: Setup, b: nat): set<nat> {
    Children(c.parent, b) + {b}
  }

  const FRESH: Thread := Thread(B.Before, Idle, B.Before, false)

  ghost function Start(c: Setup): State {
    var n := |c.parent|;
    State(seq(n, i => FRESH), seq(n, i requires 0 <= i < n => B.Init(|Children(c.parent, i)| + 1)),
          seq(n, i => 1), c.init, 0, 0, Creating)
  }

  ghost predicate Sized(c: Setup, s: State) {
    && WellFormed(c)
    && |s.threads| == |s.barriers| == |s.locks| == |s.sum| == |c.parent|
    && s.created <= |c.parent|
  }

  ghost predicate HasParent(c: Setup, i: nat) {
    i < |c.parent| && 0 <= c.parent[i] < |c.parent|
  }

  // ------------------------------------------------------------ steps

  ghost predicate Enabled(c: Setup, s: State, a: Action)
    requires Sized(c, s)
  {
    match a
    case Create => s.leader == Creating
    case Join => s.leader == Joining && s.joinSem >= |c.parent|
    case Own(i) => i < s.created && B.Ready(s.barriers[i], s.threads[i].own)
    case Lock(i) => i < s.created && HasParent(c, i) && B.Through(s.threads[i].own) && s.threads[i].work == Idle
                    && s.locks[c.parent[i]] > 0
    case Load(i) => i < s.created && HasParent(c, i) && s.threads[i].work == Locked
    case Store(i) => i < s.created && HasParent(c, i) && s.threads[i].work.Read?
    case Unlock(i) => i < s.created && HasParent(c, i) && s.threads[i].work == Written
    case Par(i) => i < s.created && HasParent(c, i) && s.threads[i].work == Added
                   && B.Ready(s.barriers[c.parent[i]], s.threads[i].par)
    case Post(i) => i < s.created && !s.threads[i].posted && B.Through(s.threads[i].own)
                    && (HasParent(c, i) ==> B.Through(s.threads[i].par))
  }

  ghost function SetThread(s: State, i: nat, t: Thread): State
    requires i < |s.threads|
  {
    s.(threads := s.threads[i := t])
  }

  ghost function Apply(c: Setup, s: State, a: Action): State
    requires Sized(c, s) && Enabled(c, s, a)
  {
    match a
    case Create =>
      if s.created < |c.parent| then s.(created := s.created + 1) else s.(leader := Joining)
    case Join => s.(joinSem := s.joinSem - |c.parent|, leader := Printed(s.sum[c.root]))
    case Own(i) =>
      var (b, r) := B.Advance(s.barriers[i], s.threads[i].own);
      SetThread(s, i, s.threads[i].(own := r)).(barriers := s.barriers[i := b])
    case Lock(i) =>
      var p := c.parent[i];
      SetThread(s, i, s.threads[i].(work := Locked)).(locks := s.locks[p := s.locks[p] - 1])
    case Load(i) => SetThread(s, i, s.threads[i].(work := Read(s.sum[c.parent[i]])))
    case Store(i) =>
      SetThread(s, i, s.threads[i].(work := Written))
      .(sum := s.sum[c.parent[i] := s.threads[i].work.seen + s.sum[i]])
    case Unlock(i) =>
      var p := c.parent[i];
      SetThread(s, i, s.threads[i].(work := Added)).(locks := s.locks[p := s.locks[p] + 1])
    case Par(i) =>
      var p := c.parent[i];
      var (b, r) := B.Advance(s.barriers[p], s.threads[i].par);
      SetThread(s, i, s.threads[i].(par := r)).(barriers := s.barriers[p := b])
    case Post(i) => SetThread(s, i, s.threads[i].(posted := true)).(joinSem := s.joinSem + 1)
  }

  // ------------------------------------------------------------ the invariant

  /** The callers of barrier b: node b itself and its children. */
  ghost function View(c: Setup, s: State, b: nat): B.Callers
    requires Sized(c, s) && b < |c.parent|
  {
    map t | t in Parties(c, b) :: if t == b then s.threads[t].own else s.threads[t].par
  }

  ghost predicate BarrierOk(c: Setup, s: State, b: nat)
    requires Sized(c, s) && b < |c.parent|
  {
    B.Inv(s.barriers[b], View(c, s, b))
  }

  ghost predicate Barriers(c: Setup, s: State)
    requires Sized(c, s)
  {
    forall b: nat :: b < |c.parent| ==> BarrierOk(c, s, b)
  }

  /** Each thread follows its program order. */
  ghost predicate InOrder(c: Setup, s: State)
    requires Sized(c, s)
  {
    && (forall i :: s.created <= i < |s.threads| ==> s.threads[i] == FRESH)
    && (forall i :: 0 <= i < |s.threads| ==>
          var t := s.threads[i];
          && (!B.Through(t.own) ==> t.work == Idle)
          && (t.work != Added ==> t.par == B.Before)
          && (!HasParent(c, i) ==> t.work == Idle)
          && (t.posted ==> B.Through(t.own) && (HasParent(c, i) ==> B.Through(t.par))))
    && (s.leader != Creating ==> s.created == |c.parent|)
  }

  ghost predicate Holding(w: Work) {
    w.Locked? || w.Read? || w.Written?
  }

  ghost predicate HoldsLock(c: Setup, s: State, b: nat, j: nat) {
    j < |s.threads| && j < |c.parent| && c.parent[j] == b && Holding(s.threads[j].work)
  }

  /** Mutex b is free or held by exactly one child of b, which has then seen the current sum. */
  ghost predicate Locks(c: Setup, s: State)
    requires Sized(c, s)
  {
    && (forall b, j, k :: HoldsLock(c, s, b, j) && HoldsLock(c, s, b, k) ==> j == k)
    && (forall b, j :: 0 <= b < |s.locks| && HoldsLock(c, s, b, j) ==> s.locks[b] == 0)
    && (forall b :: 0 <= b < |s.locks| && s.locks[b] == 0 ==> exists j: nat :: HoldsLock(c, s, b, j))
    && (forall b :: 0 <= b < |s.locks| ==> s.locks[b] <= 1)
    && (forall j: nat :: HasParent(c, j) && s.threads[j].work.Read? ==> s.threads[j].work.seen == s.sum[c.parent[j]])
  }

  ghost predicate Contributed(w: Work) {
    w.Written? || w.Added?
  }

  /** The totals of the children of b that have stored their contribution. */
  ghost function Received(c: Setup, s: State, t: seq<int>, b: nat): seq<int>
    requires Sized(c, s) && |t| == |c.parent|
  {
    seq(|t|, j requires 0 <= j < |t| => if c.parent[j] == b && Contributed(s.threads[j].work) then t[j] else 0)
  }

  ghost predicate SumOk(c: Setup, s: State, t: seq<int>, b: nat)
    requires Sized(c, s) && |t| == |c.parent| && b < |t|
  {
    s.sum[b] == c.init[b] + Sum(Received(c, s, t, b))
  }

  ghost predicate Sums(c: Setup, s: State, t: seq<int>)
    requires Sized(c, s)
  {
    |t| == |c.parent| && forall b: nat :: b < |t| ==> SumOk(c, s, t, b)
  }

  ghost function Posted(s: State): set<nat> {
    set i: nat | i < |s.threads| && s.threads[i].posted
  }

  ghost predicate Joined(c: Setup, s: State)
    requires Sized(c, s)
  {
    if s.leader.Printed? then Posted(s) == Range(|c.parent|) && s.joinSem == 0 else s.joinSem == |Posted(s)|
  }

  ghost predicate Inv(c: Setup, s: State, rank: seq<nat>) {
    && Sized(c, s) && Ranked(c.parent, rank)
    && Barriers(c, s) && InOrder(c, s) && Locks(c, s) && Sums(c, s, Totals(c.parent, rank, c.init)) && Joined(c, s)
    && (s.leader.Printed? ==> s.leader.value == Sum(c.init))
  }

  // ------------------------------------------------------------ the start

  lemma PartiesCount(c: Setup, b: nat)
    requires WellFormed(c) && b < |c.parent|
    ensures b !in Children(c.parent, b) && |Parties(c, b)| == |Children(c.parent, b)| + 1
  {
    var rank :| Ranked(c.parent, rank);
  }

  lemma StartBarriers(c: Setup)
    requires WellFormed(c)
    ensures Sized(c, Start(c)) && Barriers(c, Start(c))
  {
    var s := Start(c);
    forall b: nat | b < |c.parent|
      ensures BarrierOk(c, s, b)
    {
      PartiesCount(c, b);
      B.InitHasInvariant(Parties(c, b));
      assert s.barriers[b] == B.Init(|Parties(c, b)|);
      assert View(c, s, b) == B.Newcomers(Parties(c, b));
    }
  }

  lemma StartSums(c: Setup, t: seq<int>)
    requires WellFormed(c) && |t| == |c.parent|
    ensures Sized(c, Start(c)) && Sums(c, Start(c), t)
  {
    var s := Start(c);
    forall b: nat | b < |t|
      ensures SumOk(c, s, t, b)
    {
      SumOfZeros(Received(c, s, t, b));
    }
  }

  lemma StartHasInvariant(c: Setup, rank: seq<nat>)
    requires WellFormed(c) && Ranked(c.parent, rank)
    ensures Inv(c, Start(c), rank)
  {
    StartBarriers(c);
    StartSums(c, Totals(c.parent, rank, c.init));
    assert Posted(Start(c)) == {};
  }

  // ------------------------------------------------------------ barriers

  /** Of the barriers, a change of thread i's roles concerns only its own and its parent's. */
  lemma ViewOfOthers(c: Setup, s: State, s': State, i: nat, b: nat)
    requires Sized(c, s) && Sized(c, s') && i < |s.threads| && b < |c.parent|
    requires s'.threads == s.threads[i := s'.threads[i]]
    requires b == i ==> s'.threads[i].own == s.threads[i].own
    requires c.parent[i] == b ==> s'.threads[i].par == s.threads[i].par
    ensures View(c, s', b) == View(c, s, b)
  {
  }

  /** A caller's step at barrier b keeps it, whether the caller is b itself or a child of b. */
  lemma CallerKeepsBarrier(c: Setup, s: State, s': State, i: nat, b: nat)
    requires Sized(c, s) && Sized(c, s') && b < |c.parent| && BarrierOk(c, s, b) && i in Parties(c, b)
    requires s'.threads == s.threads[i := s'.threads[i]]
    requires B.Ready(s.barriers[b], View(c, s, b)[i])
    requires (s'.barriers[b], View(c, s', b)[i]) == B.Advance(s.barriers[b], View(c, s, b)[i])
    ensures BarrierOk(c, s', b)
  {
    ViewOfCaller(c, s, s', i, b);
    B.StepKeepsInv(s.barriers[b], View(c, s, b), i);
  }

  lemma ViewOfCaller(c: Setup, s: State, s': State, i: nat, b: nat)
    requires Sized(c, s) && Sized(c, s') && b < |c.parent| && i in Parties(c, b)
    requires s'.threads == s.threads[i := s'.threads[i]]
    ensures View(c, s', b) == View(c, s, b)[i := View(c, s', b)[i]]
  {
    assert forall t :: t in Parties(c, b) && t != i ==> View(c, s', b)[t] == View(c, s, b)[t];
  }

  lemma OwnKeepsBarriers(c: Setup, s: State, i: nat)
    requires Sized(c, s) && Barriers(c, s) && Enabled(c, s, Own(i))
    ensures Sized(c, Apply(c, s, Own(i))) && Barriers(c, Apply(c, s, Own(i)))
  {
    var s' := Apply(c, s, Own(i));
    assert BarrierOk(c, s, i);
    CallerKeepsBarrier(c, s, s', i, i);
    forall b: nat | b < |c.parent| && b != i
      ensures BarrierOk(c, s', b)
    {
      assert BarrierOk(c, s, b);
      ViewOfOthers(c, s, s', i, b);
    }
  }

  lemma ParKeepsBarriers(c: Setup, s: State, i: nat)
    requires Sized(c, s) && Barriers(c, s) && Enabled(c, s, Par(i))
    ensures Sized(c, Apply(c, s, Par(i))) && Barriers(c, Apply(c, s, Par(i)))
  {
    var s' := Apply(c, s, Par(i));
    var p := c.parent[i];
    assert BarrierOk(c, s, p);
    PartiesCount(c, p);
    assert i in Children(c.parent, p);
    CallerKeepsBarrier(c, s, s', i, p);
    forall b: nat | b < |c.parent| && b != p
      ensures BarrierOk(c, s', b)
    {
      assert BarrierOk(c, s, b);
      ViewOfOthers(c, s, s', i, b);
    }
  }

  lemma OthersKeepBarriers(c: Setup, s: State, s': State)
    requires Sized(c, s) && Sized(c, s') && Barriers(c, s) && s'.barriers == s.barriers
    requires forall i :: 0 <= i < |s.threads| ==>
               s'.threads[i].own == s.threads[i].own && s'.threads[i].par == s.threads[i].par
    ensures Barriers(c, s')
  {
    forall b: nat | b < |c.parent|
      ensures BarrierOk(c, s', b)
    {
      assert BarrierOk(c, s, b);
      SameView(c, s, s', b);
    }
  }

  lemma SameView(c: Setup, s: State, s': State, b: nat)
    requires Sized(c, s) && Sized(c, s') && b < |c.parent|
    requires forall i :: 0 <= i < |s.threads| ==>
               s'.threads[i].own == s.threads[i].own && s'.threads[i].par == s.threads[i].par
    ensures View(c, s', b) == View(c, s, b)
  {
    assert forall t :: t in Parties(c, b) ==> View(c, s', b)[t] == View(c, s, b)[t];
  }

  /** A thread past its own barrier has all its children's contributions. */
  lemma PastOwnBarrier(c: Setup, s: State, rank: seq<nat>, i: nat)
    requires Sized(c, s) && Ranked(c.parent, rank) && Barriers(c, s) && InOrder(c, s)
    requires Sums(c, s, Totals(c.parent, rank, c.init))
    requires i < |c.parent| && B.Through(s.threads[i].own)
    ensures forall j :: j in Children(c.parent, i) ==> s.threads[j].work == Added
    ensures s.sum[i] == Total(c.parent, rank, c.init, i)
  {
    assert BarrierOk(c, s, i);
    PartiesCount(c, i);
    var v := View(c, s, i);
    assert v[i] == s.threads[i].own;
    forall j | j in Children(c.parent, i)
      ensures s.threads[j].work == Added
    {
      assert j in v && v[j] == s.threads[j].par;
      B.NoEarlyReturn(s.barriers[i], v, i, j);
    }
    var t := Totals(c.parent, rank, c.init);
    assert SumOk(c, s, t, i);
    forall j: nat | j < |t| && c.parent[j] == i
      ensures Contributed(s.threads[j].work)
    {
      assert j in Children(c.parent, i);
    }
    assert Received(c, s, t, i) == Shares(c.parent, t, i, |t|);
    TotalFromChildren(c.parent, rank, c.init, i);
  }

  // ------------------------------------------------------------ program order

  lemma StepKeepsOrder(c: Setup, s: State, a: Action)
    requires Sized(c, s) && InOrder(c, s) && Enabled(c, s, a)
    ensures Sized(c, Apply(c, s, a)) && InOrder(c, Apply(c, s, a))
  {
    var s' := Apply(c, s, a);
    match a
    case Create =>
    case Join =>
    case Own(i) => ThreadKeepsOrder(c, s, s', i);
    case Lock(i) => ThreadKeepsOrder(c, s, s', i);
    case Load(i) => ThreadKeepsOrder(c, s, s', i);
    case Store(i) => ThreadKeepsOrder(c, s, s', i);
    case Unlock(i) => ThreadKeepsOrder(c, s, s', i);
    case Par(i) => ThreadKeepsOrder(c, s, s', i);
    case Post(i) => ThreadKeepsOrder(c, s, s', i);
  }

  lemma ThreadKeepsOrder(c: Setup, s: State, s': State, i: nat)
    requires Sized(c, s) && Sized(c, s') && InOrder(c, s) && i < s.created
    requires s'.threads == s.threads[i := s'.threads[i]] && s'.created == s.created && s'.leader == s.leader
    requires var t := s'.threads[i];
             && (!B.Through(t.own) ==> t.work == Idle)
             && (t.work != Added ==> t.par == B.Before)
             && (!HasParent(c, i) ==> t.work == Idle)
             && (t.posted ==> B.Through(t.own) && (HasParent(c, i) ==> B.Through(t.par)))
    ensures InOrder(c, s')
  {
  }

  // ------------------------------------------------------------ mutexes

  lemma OthersKeepLocks(c: Setup, s: State, s': State)
    requires Sized(c, s) && Sized(c, s') && Locks(c, s) && s'.locks == s.locks && s'.sum == s.sum
    requires forall i :: 0 <= i < |s.threads| ==> s'.threads[i].work == s.threads[i].work
    ensures Locks(c, s')
  {
    assert forall b: nat, j: nat :: HoldsLock(c, s', b, j) <==> HoldsLock(c, s, b, j);
  }

  lemma LockKeepsLocks(c: Setup, s: State, i: nat)
    requires Sized(c, s) && Locks(c, s) && Enabled(c, s, Lock(i))
    ensures Locks(c, Apply(c, s, Lock(i)))
  {
    var s' := Apply(c, s, Lock(i));
    var p := c.parent[i];
    assert forall b: nat, j: nat :: HoldsLock(c, s', b, j) <==> HoldsLock(c, s, b, j) || (b == p && j == i);
    forall b | 0 <= b < |s'.locks| && s'.locks[b] == 0
      ensures exists j: nat :: HoldsLock(c, s', b, j)
    {
      if b == p {
        assert HoldsLock(c, s', b, i);
      } else {
        var j: nat :| HoldsLock(c, s, b, j);
        assert HoldsLock(c, s', b, j);
      }
    }
  }

  /** Loading and storing happen inside the critical section. */
  lemma HolderKeepsLocks(c: Setup, s: State, s': State, i: nat)
    requires Sized(c, s) && Sized(c, s') && Locks(c, s) && HasParent(c, i)
    requires s'.threads == s.threads[i := s'.threads[i]] && s'.locks == s.locks
    requires Holding(s.threads[i].work) && Holding(s'.threads[i].work)
    requires forall b :: 0 <= b < |s.sum| && b != c.parent[i] ==> s'.sum[b] == s.sum[b]
    requires s'.threads[i].work.Read? ==> s'.threads[i].work.seen == s'.sum[c.parent[i]]
    ensures Locks(c, s')
  {
    assert forall b: nat, j: nat :: HoldsLock(c, s', b, j) <==> HoldsLock(c, s, b, j);
    assert HoldsLock(c, s, c.parent[i], i);
    forall j: nat | HasParent(c, j) && s'.threads[j].work.Read?
      ensures s'.threads[j].work.seen == s'.sum[c.parent[j]]
    {
      if j != i {
        assert HoldsLock(c, s, c.parent[j], j);
      }
    }
  }

  lemma UnlockKeepsLocks(c: Setup, s: State, i: nat)
    requires Sized(c, s) && Locks(c, s) && Enabled(c, s, Unlock(i))
    ensures Locks(c, Apply(c, s, Unlock(i)))
  {
    var s' := Apply(c, s, Unlock(i));
    var p := c.parent[i];
    assert HoldsLock(c, s, p, i);
    assert forall b: nat, j: nat :: HoldsLock(c, s', b, j) <==> HoldsLock(c, s, b, j) && !(b == p && j == i);
    forall b | 0 <= b < |s'.locks| && s'.locks[b] == 0
      ensures exists j: nat :: HoldsLock(c, s', b, j)
    {
      var j: nat :| HoldsLock(c, s, b, j);
      assert HoldsLock(c, s', b, j);
    }
  }

  lemma StepKeepsLocks(c: Setup, s: State, a: Action)
    requires Sized(c, s) && Locks(c, s) && Enabled(c, s, a)
    ensures Locks(c, Apply(c, s, a))
  {
    var s' := Apply(c, s, a);
    match a
    case Lock(i) => LockKeepsLocks(c, s, i);
    case Load(i) => HolderKeepsLocks(c, s, s', i);
    case Store(i) => HolderKeepsLocks(c, s, s', i);
    case Unlock(i) => UnlockKeepsLocks(c, s, i);
    case _ => OthersKeepLocks(c, s, s');
  }

  // ------------------------------------------------------------ sums

  lemma OthersKeepSums(c: Setup, s: State, s': State, t: seq<int>)
    requires Sized(c, s) && Sized(c, s') && Sums(c, s, t) && s'.sum == s.sum
    requires forall i :: 0 <= i < |s.threads| ==> Contributed(s'.threads[i].work) == Contributed(s.threads[i].work)
    ensures Sums(c, s', t)
  {
    forall b: nat | b < |t|
      ensures SumOk(c, s', t, b)
    {
      assert SumOk(c, s, t, b);
      assert Received(c, s', t, b) == Received(c, s, t, b);
    }
  }

  /** The store adds the thread's total to what the parent has received, whatever ran in between. */
  lemma StoreKeepsSums(c: Setup, s: State, rank: seq<nat>, i: nat)
    requires Inv(c, s, rank) && Enabled(c, s, Store(i))
    ensures Sums(c, Apply(c, s, Store(i)), Totals(c.parent, rank, c.init))
  {
    var s' := Apply(c, s, Store(i));
    var t := Totals(c.parent, rank, c.init);
    var p := c.parent[i];
    PastOwnBarrier(c, s, rank, i);
    assert HoldsLock(c, s, p, i);
    forall b: nat | b < |t|
      ensures SumOk(c, s', t, b)
    {
      assert SumOk(c, s, t, b);
      if b == p {
        assert Received(c, s', t, b) == Received(c, s, t, b)[i := t[i]];
        SumOfUpdate(Received(c, s, t, b), i, t[i]);
      } else {
        assert Received(c, s', t, b) == Received(c, s, t, b);
      }
    }
  }

  // ------------------------------------------------------------ every step keeps the invariant

  lemma JoinSeesTheTotal(c: Setup, s: State, rank: seq<nat>)
    requires Inv(c, s, rank) && Enabled(c, s, Join)
    ensures Posted(s) == Range(|c.parent|) && s.sum[c.root] == Sum(c.init)
  {
    SubsetIsNoLarger(Posted(s), Range(|c.parent|));
    assert c.root in Posted(s);
    PastOwnBarrier(c, s, rank, c.root);
    RootTotalIsEverything(c.parent, rank, c.init, c.root);
  }

  lemma StepKeepsBarriers(c: Setup, s: State, a: Action)
    requires Sized(c, s) && Barriers(c, s) && Enabled(c, s, a)
    ensures Sized(c, Apply(c, s, a)) && Barriers(c, Apply(c, s, a))
  {
    match a
    case Own(i) => OwnKeepsBarriers(c, s, i);
    case Par(i) => ParKeepsBarriers(c, s, i);
    case _ => OthersKeepBarriers(c, s, Apply(c, s, a));
  }

  lemma StepKeepsSums(c: Setup, s: State, rank: seq<nat>, a: Action)
    requires Inv(c, s, rank) && Enabled(c, s, a)
    ensures Sized(c, Apply(c, s, a)) && Sums(c, Apply(c, s, a), Totals(c.parent, rank, c.init))
  {
    match a
    case Store(i) => StoreKeepsSums(c, s, rank, i);
    case _ =>
      OnlyStoreContributes(c, s, a);
      OthersKeepSums(c, s, Apply(c, s, a), Totals(c.parent, rank, c.init));
  }

  lemma OnlyStoreContributes(c: Setup, s: State, a: Action)
    requires Sized(c, s) && Enabled(c, s, a) && !a.Store?
    ensures var s' := Apply(c, s, a);
            && Sized(c, s') && s'.sum == s.sum
            && forall i :: 0 <= i < |s.threads| ==> Contributed(s'.threads[i].work) == Contributed(s.threads[i].work)
  {
  }

  lemma OnlyPostPosts(c: Setup, s: State, a: Action)
    requires Sized(c, s) && Enabled(c, s, a)
    ensures Sized(c, Apply(c, s, a))
    ensures Posted(Apply(c, s, a)) == Posted(s) + if a.Post? then {a.i} else {}
  {
    var s' := Apply(c, s, a);
    assert forall i :: 0 <= i < |s.threads| ==>
             s'.threads[i].posted == (s.threads[i].posted || (a.Post? && a.i == i));
  }

  lemma StepKeepsJoined(c: Setup, s: State, rank: seq<nat>, a: Action)
    requires Inv(c, s, rank) && Enabled(c, s, a)
    ensures Sized(c, Apply(c, s, a)) && Joined(c, Apply(c, s, a))
  {
    OnlyPostPosts(c, s, a);
    if a.Join? {
      JoinSeesTheTotal(c, s, rank);
    } else if a.Post? {
      assert a.i in Range(|c.parent|) && a.i !in Posted(s);
    }
  }

  lemma StepKeepsInv(c: Setup, s: State, rank: seq<nat>, a: Action)
    requires Inv(c, s, rank) && Enabled(c, s, a)
    ensures Inv(c, Apply(c, s, a), rank)
  {
    StepKeepsBarriers(c, s, a);
    StepKeepsOrder(c, s, a);
    StepKeepsLocks(c, s, a);
    StepKeepsSums(c, s, rank, a);
    StepKeepsJoined(c, s, rank, a);
    if a.Join? {
      JoinSeesTheTotal(c, s, rank);
    }
  }
}
