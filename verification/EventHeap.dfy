/** The clinic's event queue: a binary heap in an array, ordered by the event comparison. */
module EventHeap {

  datatype Event = Event(kind: char, time: int, duration: int)

  /** The comparison as written: two reporters at one time each compare as before the other. */
  function EventCmp(e1: Event, e2: Event): int {
    if e1.time < e2.time then -1
    else if e1.time > e2.time then 1
    else if e1.kind == 'R' then -1
    else if e2.kind == 'R' then 1
    else if e1.kind == 'P' then -1
    else if e2.kind == 'P' then 1
    else if e1.kind == 'S' then -1
    else if e2.kind == 'S' then 1
    else 0
  }

  /** Reporters, patients, sales representatives, then everything else. */
  function Rank(kind: char): nat {
    if kind == 'R' then 0 else if kind == 'P' then 1 else if kind == 'S' then 2 else 3
  }

  /** Lexicographic order on time and rank. */
  predicate NotAfter(a: Event, b: Event) {
    a.time < b.time || (a.time == b.time && Rank(a.kind) <= Rank(b.kind))
  }

  /** The comparison is that order, although a negative result does not exclude the converse. */
  lemma CmpIsOrder(a: Event, b: Event)
    ensures EventCmp(a, b) <= 0 <==> NotAfter(a, b)
    ensures EventCmp(a, b) >= 0 ==> NotAfter(b, a)
    ensures EventCmp(a, b) > 0 <==>
              || a.time > b.time
              || (a.time == b.time &&
                    (|| (b.kind == 'R' && a.kind != 'R')
                     || (b.kind == 'P' && a.kind != 'R' && a.kind != 'P')
                     || (b.kind == 'S' && a.kind != 'R' && a.kind != 'P' && a.kind != 'S')))
    ensures EventCmp(a, b) < 0 && EventCmp(b, a) < 0 <==> a.time == b.time && a.kind == b.kind && Rank(a.kind) < 3
  {
  }

  function Parent(i: nat): nat
    requires i > 0
  {
    (i - 1) / 2
  }

  /** Entries at and below index j are not before their parents. */
  ghost predicate HeapFrom(q: seq<Event>, j: nat) {
    forall c :: 1 <= c < |q| && Parent(c) >= j ==> NotAfter(q[Parent(c)], q[c])
  }

  ghost predicate IsHeap(q: seq<Event>) {
    HeapFrom(q, 0)
  }

  lemma {:induction false} TopIsMinimum(q: seq<Event>, i: nat)
    requires IsHeap(q) && i < |q|
    ensures NotAfter(q[0], q[i])
  {
    if i > 0 {
      TopIsMinimum(q, Parent(i));
      assert NotAfter(q[Parent(i)], q[i]);
    }
  }

  ghost function Swapped(q: seq<Event>, i: nat, m: nat): seq<Event>
    requires i < |q| && m < |q|
  {
    q[i := q[m]][m := q[i]]
  }

  lemma SwapKeepsMultiset(q: seq<Event>, i: nat, m: nat)
    requires i < |q| && m < |q|
    ensures multiset(Swapped(q, i, m)) == multiset(q)
  {
  }

  // ------------------------------------------------------------ one step of sifting

  /** Heap from j on, except between i and its children, which still respect i's parent. */
  ghost predicate HoleDown(q: seq<Event>, j: nat, i: nat) {
    && j <= i
    && (forall c :: 1 <= c < |q| && Parent(c) >= j && Parent(c) != i ==> NotAfter(q[Parent(c)], q[c]))
    && (forall c :: 1 <= c < |q| && Parent(c) == i && i > j && Parent(i) >= j ==> NotAfter(q[Parent(i)], q[c]))
  }

  /** m is the smaller child of i, and no larger than i. */
  lemma SiftDownStep(q: seq<Event>, j: nat, i: nat, m: nat)
    requires i < |q| && HoleDown(q, j, i) && i < m < |q| && Parent(m) == i
    requires forall c :: 1 <= c < |q| && Parent(c) == i ==> NotAfter(q[m], q[c])
    requires NotAfter(q[m], q[i])
    ensures HoleDown(Swapped(q, i, m), j, m)
  {
    var q' := Swapped(q, i, m);
    forall c | 1 <= c < |q'| && Parent(c) >= j && Parent(c) != m
      ensures NotAfter(q'[Parent(c)], q'[c])
    {
      if c == i {
        assert NotAfter(q[Parent(i)], q[m]);
      }
    }
  }

  /** Heap everywhere except between i and its parent, whose parent respects i's children. */
  ghost predicate HoleUp(q: seq<Event>, i: nat) {
    && i < |q|
    && (forall c :: 1 <= c < |q| && c != i ==> NotAfter(q[Parent(c)], q[c]))
    && (forall c :: 1 <= c < |q| && Parent(c) == i && i > 0 ==> NotAfter(q[Parent(i)], q[c]))
  }

  lemma SiftUpStep(q: seq<Event>, i: nat)
    requires HoleUp(q, i) && i > 0 && NotAfter(q[i], q[Parent(i)])
    ensures HoleUp(Swapped(q, i, Parent(i)), Parent(i))
  {
    var p := Parent(i);
    var q' := Swapped(q, i, p);
    forall c | 1 <= c < |q'| && c != p
      ensures NotAfter(q'[Parent(c)], q'[c])
    {
      if Parent(c) == p && c != i {
        assert NotAfter(q[p], q[c]);
      }
    }
  }

  lemma AppendedHeap(q: seq<Event>, e: Event)
    requires IsHeap(q)
    ensures HoleUp(q + [e], |q|)
  {
  }

  lemma SiftedUp(q: seq<Event>, i: nat)
    requires HoleUp(q, i) && (i > 0 ==> NotAfter(q[Parent(i)], q[i]))
    ensures IsHeap(q)
  {
  }

  /** The last event in place of the first. */
  ghost function Topped(q: seq<Event>): (r: seq<Event>)
    requires q != []
    ensures |r| == |q| - 1
    ensures forall k :: 0 <= k < |r| ==> r[k] == if k == 0 then q[|q| - 1] else q[k]
  {
    if |q| == 1 then [] else [q[|q| - 1]] + q[1..|q| - 1]
  }

  lemma ToppedHeap(q: seq<Event>)
    requires q != [] && IsHeap(q)
    ensures HeapFrom(Topped(q), 1)
    ensures multiset(Topped(q)) == multiset(q) - multiset{q[0]}
  {
    var q' := Topped(q);
    assert q == [q[0]] + q[1..];
    if |q| > 1 {
      assert q[1..] == q[1..|q| - 1] + [q[|q| - 1]];
    }
  }

  // ------------------------------------------------------------ sifting as a function

  /** The event at i moved up until its parent is strictly before it. */
  ghost function Risen(q: seq<Event>, i: nat): (r: seq<Event>)
    requires i < |q|
    ensures |r| == |q|
    decreases i
  {
    if i == 0 || EventCmp(q[Parent(i)], q[i]) < 0 then q else Risen(Swapped(q, i, Parent(i)), Parent(i))
  }

  function SmallerOf(q: seq<Event>, i: nat): (m: nat)
    requires 2 * i + 1 < |q|
    ensures i < m < |q| && Parent(m) == i
  {
    if 2 * i + 2 == |q| || EventCmp(q[2 * i + 1], q[2 * i + 2]) < 0 then 2 * i + 1 else 2 * i + 2
  }

  /** The event at i moved down until it is strictly before its smaller child. */
  ghost function Sunk(q: seq<Event>, i: nat): (r: seq<Event>)
    ensures |r| == |q|
    decreases |q| - i
  {
    if 2 * i + 1 >= |q| then q
    else
      var m := SmallerOf(q, i);
      if EventCmp(q[i], q[m]) < 0 then q else Sunk(Swapped(q, i, m), m)
  }

  lemma SmallerChild(q: seq<Event>, i: nat)
    requires 2 * i + 1 < |q|
    ensures forall c :: 1 <= c < |q| && Parent(c) == i ==> NotAfter(q[SmallerOf(q, i)], q[c])
  {
    forall c | 1 <= c < |q| && Parent(c) == i
      ensures NotAfter(q[SmallerOf(q, i)], q[c])
    {
      assert c == 2 * i + 1 || c == 2 * i + 2;
    }
  }

  lemma SmallerThanChildren(q: seq<Event>, j: nat, i: nat, m: nat)
    requires i < |q| && HoleDown(q, j, i) && m < |q| && NotAfter(q[i], q[m])
    requires forall c :: 1 <= c < |q| && Parent(c) == i ==> NotAfter(q[m], q[c])
    ensures HeapFrom(q, j)
  {
    forall c | 1 <= c < |q| && Parent(c) >= j
      ensures NotAfter(q[Parent(c)], q[c])
    {
      if Parent(c) == i {
        assert NotAfter(q[m], q[c]);
      }
    }
  }

  lemma {:induction false} RisenIsHeap(q: seq<Event>, i: nat)
    requires HoleUp(q, i)
    ensures IsHeap(Risen(q, i)) && multiset(Risen(q, i)) == multiset(q)
    decreases i
  {
    if i == 0 {
      SiftedUp(q, i);
    } else {
      CmpIsOrder(q[Parent(i)], q[i]);
      if EventCmp(q[Parent(i)], q[i]) < 0 {
        SiftedUp(q, i);
      } else {
        SiftUpStep(q, i);
        SwapKeepsMultiset(q, i, Parent(i));
        RisenIsHeap(Swapped(q, i, Parent(i)), Parent(i));
      }
    }
  }

  lemma {:induction false} SunkIsHeap(q: seq<Event>, j: nat, i: nat)
    requires HoleDown(q, j, i)
    ensures HeapFrom(Sunk(q, i), j) && multiset(Sunk(q, i)) == multiset(q)
    decreases |q| - i
  {
    if 2 * i + 1 < |q| {
      var m := SmallerOf(q, i);
      CmpIsOrder(q[i], q[m]);
      SmallerChild(q, i);
      if EventCmp(q[i], q[m]) < 0 {
        SmallerThanChildren(q, j, i, m);
      } else {
        SiftDownStep(q, j, i, m);
        SwapKeepsMultiset(q, i, m);
        SunkIsHeap(Swapped(q, i, m), j, m);
      }
    }
  }

  // ------------------------------------------------------------ what has been taken out

  ghost predicate IsSorted(out: seq<Event>) {
    forall i, j :: 0 <= i < j < |out| ==> NotAfter(out[i], out[j])
  }

  /** Nothing taken out comes after anything still queued. */
  ghost predicate NoneAfter(out: seq<Event>, queued: multiset<Event>) {
    forall x, y :: x in out && y in queued ==> NotAfter(x, y)
  }

  lemma NextEmitted(out: seq<Event>, e: Event, queued: multiset<Event>)
    requires IsSorted(out) && NoneAfter(out, queued) && e in queued
    requires forall x :: x in queued ==> NotAfter(e, x)
    ensures IsSorted(out + [e]) && NoneAfter(out + [e], queued - multiset{e})
  {
    assert forall x :: x in queued - multiset{e} ==> x in queued;
    assert forall i :: 0 <= i < |out| ==> out[i] in out;
  }

  // ------------------------------------------------------------ the queue

  class EventQueue {
    var n: nat
    const Q: array<Event>

    ghost predicate Valid()
      reads this
    {
      n <= Q.Length
    }

    ghost function Contents(): seq<Event>
      requires Valid()
      reads this, Q
    {
      Q[..n]
    }

    /** The queue's first n cells hold the arrivals in file order; the loop makes them a heap, bottom up. */
    constructor (capacity: nat, arrivals: seq<Event>)
      requires |arrivals| <= capacity
      ensures Valid() && fresh(Q) && Q.Length == capacity
      ensures IsHeap(Contents()) && multiset(Contents()) == multiset(arrivals)
    {
      n := |arrivals|;
      Q := new Event[capacity](i => if 0 <= i < |arrivals| then arrivals[i] else Event('E', 0, 0));
      new;
      assert Q[..n] == arrivals;
      var j: int := n / 2 - 1;
      while j >= 0
        invariant -1 <= j && 2 * (j + 1) <= n
        invariant n == |arrivals| && Valid()
        invariant HeapFrom(Contents(), j + 1) && multiset(Contents()) == multiset(arrivals)
      {
        SunkIsHeap(Contents(), j, j);
        SiftDown(j);
        j := j - 1;
      }
    }

    /** q is what the array begins with. */
    method Swap(i: nat, m: nat, ghost q: seq<Event>)
      requires i < |q| && m < |q| <= Q.Length && forall k :: 0 <= k < |q| ==> Q[k] == q[k]
      modifies Q
      ensures forall k :: 0 <= k < |q| ==> Q[k] == Swapped(q, i, m)[k]
    {
      Q[i], Q[m] := Q[m], Q[i];
    }

    method SiftDown(j: nat)
      requires Valid()
      modifies Q
      ensures Valid() && Contents() == Sunk(old(Contents()), j)
    {
      var i := j;
      ghost var start, q := Contents(), Contents();
      while true
        invariant Valid() && |q| == n && forall k :: 0 <= k < n ==> Q[k] == q[k]
        invariant Sunk(q, i) == Sunk(start, j)
        decreases n - i
      {
        var l, r := 2 * i + 1, 2 * i + 2;
        if l >= n {
          break;
        }
        var m := if r == n || EventCmp(Q[l], Q[r]) < 0 then l else r;
        assert m == SmallerOf(q, i);
        if EventCmp(Q[i], Q[m]) < 0 {
          break;
        }
        assert Sunk(q, i) == Sunk(Swapped(q, i, m), m);
        Swap(i, m, q);
        q := Swapped(q, i, m);
        i := m;
      }
      assert Contents() == q;
    }

    method AddEvent(e: Event)
      requires Valid() && IsHeap(Contents()) && n < Q.Length
      modifies this, Q
      ensures Valid() && n == old(n) + 1 && Contents() == Risen(old(Contents()) + [e], old(n))
      ensures IsHeap(Contents()) && multiset(Contents()) == old(multiset(Contents())) + multiset{e}
    {
      ghost var start := Contents() + [e];
      AppendedHeap(Contents(), e);
      RisenIsHeap(start, n);
      Q[n] := e;
      var i: nat := n;
      ghost var q := start;
      while true
        invariant i <= n == old(n) < Q.Length && |q| == n + 1 && forall k :: 0 <= k <= n ==> Q[k] == q[k]
        invariant Risen(q, i) == Risen(start, n)
        decreases i
      {
        if i == 0 {
          break;
        }
        var p := (i - 1) / 2;
        if EventCmp(Q[p], Q[i]) < 0 {
          break;
        }
        assert Risen(q, i) == Risen(Swapped(q, i, p), p);
        Swap(i, p, q);
        q := Swapped(q, i, p);
        i := p;
      }
      n := n + 1;
      assert Contents() == q;
    }

    /** Removes the event NextEvent shows; nothing when the queue is empty. */
    method DelEvent()
      requires Valid() && IsHeap(Contents())
      modifies this, Q
      ensures Valid() && IsHeap(Contents()) && n == if old(n) == 0 then 0 else old(n) - 1
      ensures old(n) > 0 ==> Contents() == Sunk(Topped(old(Contents())), 0)
      ensures old(n) > 0 ==> multiset(Contents()) == old(multiset(Contents())) - multiset{old(Q[0])}
    {
      if n > 0 {
        ghost var was := Contents();
        Q[0] := Q[n - 1];
        n := n - 1;
        assert forall k :: 0 <= k < n ==> Contents()[k] == Topped(was)[k];
        assert Contents() == Topped(was);
        ToppedHeap(was);
        SunkIsHeap(Topped(was), 0, 0);
        SiftDown(0);
      }
    }

    /** A closing mark when empty, otherwise an event nothing in the queue comes before. */
    method NextEvent() returns (e: Event)
      requires Valid() && IsHeap(Contents())
      ensures n == 0 ==> e == Event('E', 0, 0)
      ensures n > 0 ==> e == Q[0] && e in Contents() && forall x :: x in Contents() ==> NotAfter(e, x)
    {
      if n == 0 {
        return Event('E', 0, 0);
      }
      e := Q[0];
      forall x | x in Contents()
        ensures NotAfter(e, x)
      {
        var i :| 0 <= i < n && Contents()[i] == x;
        TopIsMinimum(Contents(), i);
      }
    }

    method Empty() returns (b: bool)
      ensures b == (n == 0)
    {
      b := n == 0;
    }

    /** Taking the next event until none is left yields all events, in order. */
    method Drain() returns (out: seq<Event>)
      requires Valid() && IsHeap(Contents())
      modifies this, Q
      ensures Valid() && n == 0
      ensures multiset(out) == old(multiset(Contents())) && IsSorted(out)
    {
      out := [];
      ghost var all := multiset(Contents());
      var done := Empty();
      while !done
        invariant Valid() && IsHeap(Contents()) && done == (n == 0)
        invariant multiset(out) + multiset(Contents()) == all
        invariant IsSorted(out) && NoneAfter(out, multiset(Contents()))
        decreases n
      {
        var e := NextEvent();
        ghost var before := multiset(Contents());
        assert forall x :: x in before ==> x in Contents();
        DelEvent();
        NextEmitted(out, e, before);
        out := out + [e];
        done := Empty();
      }
      assert Contents() == [];
    }
  }
}
