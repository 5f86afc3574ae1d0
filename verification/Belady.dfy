/**
 More frames never mean more page faults, as long as no frame is free.

 One reference of a process is one request, plus the retry after a fault; with no free
 frame the retry always hits, so the reference acts on the row as one LRU access.
 */
module Belady {
  import opened Counting
  import opened PageTable
  import opened Memory

  ghost predicate NoFreeFrame(mem: Memory) {
    forall g :: 0 <= g < |mem.free| ==> !mem.free[g]
  }

  ghost predicate Legal(mem: Memory, pid: nat, page: int) {
    pid < |mem.rows| && pid < |mem.reqd| && 0 <= page < |mem.rows[pid]| && page <= mem.reqd[pid]
  }

  datatype Tally = Tally(mem: Memory, faults: nat)

  /** One reference: ask, and after a fault ask the same page again. */
  function Reference(mem: Memory, pid: nat, page: nat): (t: Tally)
    requires Legal(mem, pid, page)
    ensures |t.mem.rows| == |mem.rows| && |t.mem.rows[pid]| == |mem.rows[pid]| && t.mem.reqd == mem.reqd
  {
    var first := Serve(mem, pid, page);
    if first.reply != Fault then Tally(first.mem, 0)
    else
      Tally(Serve(first.mem, pid, page).mem, 1)
  }

  /** What was legal stays legal: a reference changes neither the row's length nor the limit. */
  lemma ReferenceKeepsLegal(mem: Memory, pid: nat, page: nat)
    requires Legal(mem, pid, page)
    ensures var mem' := Reference(mem, pid, page).mem;
            && pid < |mem'.rows| && |mem'.rows[pid]| == |mem.rows[pid]|
            && forall r :: Legal(mem, pid, r) ==> Legal(mem', pid, r)
  {
  }

  lemma LegalAfterFirst(mem: Memory, pid: nat, refs: seq<nat>)
    requires refs != [] && forall r :: r in refs ==> Legal(mem, pid, r)
    ensures forall r :: r in refs[1..] ==> Legal(Reference(mem, pid, refs[0]).mem, pid, r)
  {
    forall r | r in refs[1..]
      ensures Legal(Reference(mem, pid, refs[0]).mem, pid, r)
    {
      assert r in refs && Legal(mem, pid, r);
      ReferenceKeepsLegal(mem, pid, refs[0]);
    }
  }

  function Trace(mem: Memory, pid: nat, refs: seq<nat>): Tally
    requires forall r :: r in refs ==> Legal(mem, pid, r)
    decreases |refs|
  {
    if refs == [] then Tally(mem, 0)
    else
      var head := Reference(mem, pid, refs[0]);
      LegalAfterFirst(mem, pid, refs);
      var tail := Trace(head.mem, pid, refs[1..]);
      Tally(tail.mem, head.faults + tail.faults)
  }

  /** One access to an LRU stack of fixed size. */
  ghost function Access(lru: seq<nat>, page: nat): seq<nat>
    requires lru != []
  {
    if page in lru then
      var pos :| 0 <= pos < |lru| && lru[pos] == page;
      MoveToFront(lru, pos)
    else [page] + lru[..|lru| - 1]
  }

  ghost predicate Stack(mem: Memory, pid: nat, lru: seq<nat>) {
    pid < |mem.rows| && Represents(mem.rows[pid], lru) && lru != [] && NoFreeFrame(mem)
  }

  lemma StacksAreDistinct(row: Row, lru: seq<nat>)
    requires Represents(row, lru)
    ensures Distinct(lru)
    ensures forall i :: 0 <= i < |row| ==> (row[i].valid <==> i in lru)
  {
    forall i, j | 0 <= i < j < |lru|
      ensures lru[i] != lru[j]
    {
      assert row[lru[i]].lastUsedAt == i && row[lru[j]].lastUsedAt == j;
    }
  }

  lemma HitIsOneAccess(mem: Memory, pid: nat, page: nat, lru: seq<nat>)
    requires Legal(mem, pid, page) && Stack(mem, pid, lru) && page in lru
    ensures Reference(mem, pid, page).faults == 0
    ensures Stack(Reference(mem, pid, page).mem, pid, Access(lru, page))
  {
    var row := mem.rows[pid];
    StacksAreDistinct(row, lru);
    TouchIsMoveToFront(row, lru, page);
    assert Access(lru, page) == MoveToFront(lru, row[page].lastUsedAt);
  }

  /** With no free frame a fault replaces the bottom of the stack, and the retry hits at its top. */
  lemma MissIsOneAccess(mem: Memory, pid: nat, page: nat, lru: seq<nat>)
    requires Legal(mem, pid, page) && Stack(mem, pid, lru) && page !in lru
    ensures Reference(mem, pid, page).faults == 1
    ensures Stack(Reference(mem, pid, page).mem, pid, Access(lru, page))
  {
    var row := mem.rows[pid];
    StacksAreDistinct(row, lru);
    assert FirstFree(mem.free) == |mem.free|;
    assert row[lru[0]].valid;
    ReplaceDropsLast(row, lru, page);
    var row1 := Replace(row, page, lru[|lru| - 1]);
    var lru1 := [page] + lru[..|lru| - 1];
    var first := Serve(mem, pid, page);
    assert first.mem == mem.(rows := mem.rows[pid := row1]) && first.reply == Fault;
    assert lru1[0] == page && row1[page].lastUsedAt == 0 && row1[page].valid;
    TouchIsMoveToFront(row1, lru1, page);
    assert MoveToFront(lru1, 0) == lru1;
  }

  lemma ReferenceIsOneAccess(mem: Memory, pid: nat, page: nat, lru: seq<nat>)
    requires Legal(mem, pid, page) && Stack(mem, pid, lru)
    ensures Reference(mem, pid, page).faults == if page in lru then 0 else 1
    ensures Stack(Reference(mem, pid, page).mem, pid, Access(lru, page))
  {
    if page in lru {
      HitIsOneAccess(mem, pid, page, lru);
    } else {
      MissIsOneAccess(mem, pid, page, lru);
    }
  }

  /** A smaller stack that is the top of a larger one stays its top. */
  lemma AccessKeepsPrefix(small: seq<nat>, large: seq<nat>, page: nat)
    requires small != [] && small <= large && Distinct(large)
    ensures Access(small, page) <= Access(large, page)
    ensures page in small ==> page in large
  {
    if page in small {
      var a :| 0 <= a < |small| && small[a] == page && Access(small, page) == MoveToFront(small, a);
      assert large[a] == page;
      assert Access(large, page) == MoveToFront(large, a);
      MovedPrefix(small, large, a);
    } else if page in large {
      var b :| 0 <= b < |large| && large[b] == page && Access(large, page) == MoveToFront(large, b);
      assert forall j :: 0 <= j < |small| ==> large[j] == small[j];
      PushedPrefix(small, large, b);
    } else {
      assert small[..|small| - 1] <= large[..|large| - 1];
    }
  }

  lemma MovedPrefix(small: seq<nat>, large: seq<nat>, a: nat)
    requires small <= large && a < |small|
    ensures MoveToFront(small, a) <= MoveToFront(large, a)
  {
    assert large == small + large[|small|..];
    assert MoveToFront(large, a) == MoveToFront(small, a) + large[|small|..];
  }

  lemma PushedPrefix(small: seq<nat>, large: seq<nat>, b: nat)
    requires small != [] && small <= large && |small| <= b < |large|
    ensures [large[b]] + small[..|small| - 1] <= MoveToFront(large, b)
  {
    var front := small[..|small| - 1];
    assert large[..b] == front + large[|front|..b];
  }

  /** What `small` and `large` have in common after the same trace. */
  ghost predicate Included(small: Tally, large: Tally, pid: nat) {
    && pid < |small.mem.rows| && pid < |large.mem.rows|
    && |small.mem.rows[pid]| == |large.mem.rows[pid]|
    && (forall i :: 0 <= i < |small.mem.rows[pid]| && small.mem.rows[pid][i].valid ==> large.mem.rows[pid][i].valid)
    && large.faults <= small.faults
  }

  lemma PrefixIsIncluded(small: Memory, large: Memory, pid: nat, a: seq<nat>, b: seq<nat>)
    requires Stack(small, pid, a) && Stack(large, pid, b) && a <= b
    requires |small.rows[pid]| == |large.rows[pid]|
    ensures Included(Tally(small, 0), Tally(large, 0), pid)
  {
    StacksAreDistinct(small.rows[pid], a);
    StacksAreDistinct(large.rows[pid], b);
    forall i | i in a
      ensures i in b
    {
      var j :| 0 <= j < |a| && a[j] == i;
      assert b[j] == i;
    }
  }

  lemma StackAfterReference(mem: Memory, pid: nat, page: nat, lru: seq<nat>)
    requires Legal(mem, pid, page) && Stack(mem, pid, lru)
    ensures Reference(mem, pid, page).faults == if page in lru then 0 else 1
    ensures Stack(Reference(mem, pid, page).mem, pid, Access(lru, page)) && Distinct(lru)
  {
    StacksAreDistinct(mem.rows[pid], lru);
    ReferenceIsOneAccess(mem, pid, page, lru);
  }

  lemma {:induction false} InclusionAlongTrace(small: Memory, large: Memory, pid: nat, refs: seq<nat>,
                                               a: seq<nat>, b: seq<nat>)
    requires forall r :: r in refs ==> Legal(small, pid, r) && Legal(large, pid, r)
    requires Stack(small, pid, a) && Stack(large, pid, b) && a <= b
    requires |small.rows[pid]| == |large.rows[pid]|
    ensures Included(Trace(small, pid, refs), Trace(large, pid, refs), pid)
    decreases |refs|
  {
    if refs == [] {
      PrefixIsIncluded(small, large, pid, a, b);
    } else {
      var page := refs[0];
      StackAfterReference(small, pid, page, a);
      StackAfterReference(large, pid, page, b);
      LegalAfterFirst(small, pid, refs);
      LegalAfterFirst(large, pid, refs);
      AccessKeepsPrefix(a, b, page);
      InclusionAlongTrace(Reference(small, pid, page).mem, Reference(large, pid, page).mem, pid, refs[1..],
                          Access(a, page), Access(b, page));
    }
  }

  /** The row of process pid is as the master lays it out with c frames. */
  ghost predicate LaidOut(mem: Memory, pid: nat, m: nat, c: nat) {
    pid < |mem.rows| && exists base :: mem.rows[pid] == MasterRow(m, c, base)
  }

  /**
   No Belady anomaly: from the master's layouts with c and d >= c frames, every page resident
   after any trace with c frames is resident with d, and d frames cause no more faults.
   */
  lemma NoBeladyAnomaly(small: Memory, large: Memory, pid: nat, m: nat, c: nat, d: nat, refs: seq<nat>)
    requires 1 <= c <= d <= m
    requires LaidOut(small, pid, m, c) && LaidOut(large, pid, m, d)
    requires NoFreeFrame(small) && NoFreeFrame(large)
    requires forall r :: r in refs ==> Legal(small, pid, r) && Legal(large, pid, r)
    ensures Included(Trace(small, pid, refs), Trace(large, pid, refs), pid)
  {
    var base :| small.rows[pid] == MasterRow(m, c, base);
    var base' :| large.rows[pid] == MasterRow(m, d, base');
    MasterRowIsAscending(m, c, base);
    MasterRowIsAscending(m, d, base');
    InclusionAlongTrace(small, large, pid, refs, Ascending(c), Ascending(d));
  }
}
