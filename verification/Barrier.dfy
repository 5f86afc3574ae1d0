/**
 The semaphore barrier of the thread library, for one generation of callers.

 Every call runs in sections under the library's global mutex, none of which blocks
 inside; each section is one step here, and so is each semaphore operation.
 */
module Barrier {
  import opened Counting

  /** The fields the barrier's code reads and writes. */
  datatype Barrier = Barrier(n: nat, count: nat, sem: nat)

  /** How far a caller is: a waiter ends as Returned, the one that opens the barrier as Released. */
  datatype Role = Before | Waiting | Releasing | Resetting | Released | Returned

  predicate Through(r: Role) {
    r.Released? || r.Returned?
  }

  function Init(count: nat): Barrier {
    Barrier(count, count, 0)
  }

  /** The caller's next step is not blocked. */
  predicate Ready(b: Barrier, r: Role) {
    match r
    case Before => b.n == 1 || b.count >= 1
    case Waiting => b.sem > 0
    case Releasing => b.n >= 1
    case Resetting => true
    case Released => false
    case Returned => false
  }

  function Advance(b: Barrier, r: Role): (Barrier, Role)
    requires Ready(b, r)
  {
    match r
    case Before =>
      if b.n == 1 then (b, Released)
      else if b.count == 1 then (b, Releasing)
      else (b.(count := b.count - 1), Waiting)
    case Releasing => (b.(sem := b.sem + (b.n - 1)), Resetting)
    case Resetting => (b.(count := b.n), Released)
    case Waiting => (b.(sem := b.sem - 1), Returned)
  }

  // ------------------------------------------------------------ the invariant

  type Callers = map<nat, Role>

  ghost function Those(c: Callers, r: Role): set<nat> {
    set t | t in c && c[t] == r
  }

  /** Somebody is still missing: the others all wait. */
  ghost predicate Open(b: Barrier, c: Callers) {
    && (forall t :: t in c ==> c[t].Before? || c[t].Waiting?)
    && Those(c, Before) != {} && b.count == |Those(c, Before)| && b.sem == 0
  }

  /** Everybody has arrived and `last` is about to post. */
  ghost predicate Handover(b: Barrier, c: Callers, last: nat) {
    && last in c && c[last].Releasing? && b.sem == 0 && b.count == 1 && b.n > 1
    && (forall t :: t in c && t != last ==> c[t].Waiting?)
  }

  /** `last` has posted; the semaphore holds one unit for each caller still waiting. */
  ghost predicate Closed(b: Barrier, c: Callers, last: nat) {
    && last in c && (c[last].Resetting? || c[last].Released?)
    && (forall t :: t in c && t != last ==> c[t].Waiting? || c[t].Returned?)
    && b.sem == |Those(c, Waiting)|
    && b.count == (if c[last].Resetting? then 1 else b.n)
    && (c[last].Resetting? ==> b.n > 1)
  }

  ghost predicate Inv(b: Barrier, c: Callers) {
    && b.n >= 1 && |c.Keys| == b.n
    && (Open(b, c) || (exists last :: Handover(b, c, last)) || (exists last :: Closed(b, c, last)))
  }

  ghost function Newcomers(keys: set<nat>): Callers {
    map t | t in keys :: Before
  }

  lemma InitHasInvariant(keys: set<nat>)
    requires keys != {}
    ensures Inv(Init(|keys|), Newcomers(keys))
  {
    var c := Newcomers(keys);
    assert Those(c, Before) == keys == c.Keys;
    var t :| t in keys;
    assert t in Those(c, Before);
  }

  lemma ArrivalKeepsInv(b: Barrier, c: Callers, t: nat)
    requires Inv(b, c) && t in c && c[t].Before?
    ensures Ready(b, c[t])
    ensures Inv(Advance(b, c[t]).0, c[t := Advance(b, c[t]).1])
  {
    var (b', r) := Advance(b, c[t]);
    var c' := c[t := r];
    assert t in Those(c, Before);
    assert Open(b, c);
    assert Those(c', Before) == Those(c, Before) - {t};
    assert c'.Keys == c.Keys;
    if b.n == 1 {
      OneCallerIsAlone(c, t);
      assert Those(c', Waiting) == {};
      assert Closed(b', c', t);
    } else if b.count == 1 {
      assert Those(c', Before) == {};
      forall u | u in c' && u != t
        ensures c'[u].Waiting?
      {
        assert u !in Those(c', Before);
      }
      assert Handover(b', c', t);
    } else {
      assert |Those(c', Before)| == b.count - 1;
      assert Open(b', c');
    }
  }

  lemma OneCallerIsAlone(c: Callers, t: nat)
    requires t in c && |c.Keys| == 1
    ensures c.Keys == {t}
  {
    SubsetIsNoLarger({t}, c.Keys);
  }

  lemma ReleaseKeepsInv(b: Barrier, c: Callers, t: nat)
    requires Inv(b, c) && t in c && c[t].Releasing?
    ensures Inv(Advance(b, c[t]).0, c[t := Advance(b, c[t]).1])
  {
    var c' := c[t := Resetting];
    assert Handover(b, c, t);
    assert Those(c', Waiting) == c.Keys - {t};
    assert Closed(Advance(b, c[t]).0, c', t);
  }

  lemma ResetKeepsInv(b: Barrier, c: Callers, t: nat)
    requires Inv(b, c) && t in c && c[t].Resetting?
    ensures Inv(Advance(b, c[t]).0, c[t := Advance(b, c[t]).1])
  {
    var c' := c[t := Released];
    assert Closed(b, c, t);
    assert Those(c', Waiting) == Those(c, Waiting);
    assert Closed(Advance(b, c[t]).0, c', t);
  }

  lemma ReturnKeepsInv(b: Barrier, c: Callers, t: nat)
    requires Inv(b, c) && t in c && c[t].Waiting? && b.sem > 0
    ensures Inv(Advance(b, c[t]).0, c[t := Advance(b, c[t]).1])
  {
    var c' := c[t := Returned];
    var last :| Closed(b, c, last);
    assert Those(c', Waiting) == Those(c, Waiting) - {t};
    assert Closed(Advance(b, c[t]).0, c', last);
  }

  lemma StepKeepsInv(b: Barrier, c: Callers, t: nat)
    requires Inv(b, c) && t in c && Ready(b, c[t])
    ensures Inv(Advance(b, c[t]).0, c[t := Advance(b, c[t]).1])
    ensures Advance(b, c[t]).0.n == b.n
  {
    match c[t]
    case Before => ArrivalKeepsInv(b, c, t);
    case Waiting => ReturnKeepsInv(b, c, t);
    case Releasing => ReleaseKeepsInv(b, c, t);
    case Resetting => ResetKeepsInv(b, c, t);
  }

  // ------------------------------------------------------------ what it buys

  /** No call returns before the n-th has been made. */
  lemma NoEarlyReturn(b: Barrier, c: Callers, t: nat, u: nat)
    requires Inv(b, c) && t in c && u in c && (Through(c[t]) || c[t].Resetting?)
    ensures !c[u].Before? && !c[u].Releasing?
  {
  }

  /** Once the barrier has opened, units posted and not yet taken plus waiters returned make n - 1. */
  lemma UnitsPlusReturnedIsConstant(b: Barrier, c: Callers, t: nat)
    requires Inv(b, c) && t in c && (Through(c[t]) || c[t].Resetting?)
    ensures b.sem + |Those(c, Returned)| == b.n - 1
  {
    var last :| Closed(b, c, last);
    assert Those(c, Waiting) + Those(c, Returned) == c.Keys - {last};
    assert Those(c, Waiting) * Those(c, Returned) == {};
  }

  /** A caller can only be blocked as a waiter, and then somebody has not arrived or is about to post. */
  lemma BlockedOnlyForAReason(b: Barrier, c: Callers, t: nat) returns (u: nat)
    requires Inv(b, c) && t in c && !Through(c[t]) && !Ready(b, c[t])
    ensures c[t].Waiting? && u in c && u != t && (c[u].Before? || c[u].Releasing?) && Ready(b, c[u])
  {
    assert t in Those(c, c[t]);
    if l :| Handover(b, c, l) {
      u := l;
    } else {
      u :| u in Those(c, Before);
    }
  }

  /** When all n have arrived and nobody can step, everybody is through. */
  lemma FullBarrierDrains(b: Barrier, c: Callers)
    requires Inv(b, c) && Those(c, Before) == {}
    requires forall t :: t in c ==> !Ready(b, c[t])
    ensures forall t :: t in c ==> Through(c[t])
  {
    forall t | t in c
      ensures Through(c[t])
    {
      if !Through(c[t]) {
        var u := BlockedOnlyForAReason(b, c, t);
      }
    }
  }
  // ------------------------------------------------------------ calling again

  /** Once everybody is through the barrier is as it was made, so the next n calls find what the first found. */
  lemma DrainedIsFresh(b: Barrier, c: Callers)
    requires Inv(b, c) && forall t :: t in c ==> Through(c[t])
    ensures b == Init(b.n)
  {
    assert forall t :: t in c ==> t !in Those(c, Before);
    assert Those(c, Before) == {};
    var last :| Closed(b, c, last);
    assert Those(c, Waiting) == {};
  }

  /** What becomes of one caller when k times nobody else moves. */
  function Alone(b: Barrier, r: Role, k: nat): (Barrier, Role)
    decreases k
  {
    if k == 0 || !Ready(b, r) then (b, r) else Alone(Advance(b, r).0, Advance(b, r).1, k - 1)
  }

  ghost predicate PassesAlone(b: Barrier) {
    exists k :: Through(Alone(b, Before, k).1)
  }

  lemma AloneAtFreshBarrier(n: nat, k: nat)
    requires n >= 2
    ensures !Through(Alone(Init(n), Before, k).1)
  {
    if k > 0 {
      var b := Init(n).(count := n - 1);
      assert Advance(Init(n), Before) == (b, Waiting);
      assert !Ready(b, Waiting);
      assert Alone(b, Waiting, k - 1) == (b, Waiting);
    }
  }

  lemma AloneAtBusyBarrier(b: Barrier)
    requires b.n >= 2 && (b.count == 1 || (b.count == b.n && b.sem > 0))
    ensures PassesAlone(b)
  {
    if b.count == 1 {
      var b1 := b.(sem := b.sem + (b.n - 1));
      assert Alone(b1, Resetting, 1).1 == Released;
      assert Alone(b, Releasing, 2) == Alone(b1, Resetting, 1);
      assert Alone(b, Before, 3) == Alone(b, Releasing, 2);
    } else {
      var b1 := b.(count := b.count - 1);
      assert Alone(b1, Waiting, 1).1 == Returned;
      assert Alone(b, Before, 2) == Alone(b1, Waiting, 1);
    }
  }

  /**
   A caller that is through and calls again at once gets through a second time with nobody else moving,
   although the others have not called again, if and only if somebody is not through the first time yet.
   */
  lemma CallingAgainPassesExactlyWhenTooEarly(b: Barrier, c: Callers, t: nat)
    requires Inv(b, c) && b.n >= 2 && t in c && Through(c[t])
    ensures PassesAlone(b) <==> exists u :: u in c && !Through(c[u])
  {
    var last :| Closed(b, c, last);
    if u :| u in c && !Through(c[u]) {
      if u != last {
        assert u in Those(c, Waiting);
      }
      AloneAtBusyBarrier(b);
    } else {
      DrainedIsFresh(b, c);
      forall k
        ensures !Through(Alone(b, Before, k).1)
      {
        AloneAtFreshBarrier(b.n, k);
      }
    }
  }
}
