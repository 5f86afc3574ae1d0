/**
 Requests whose page number is accepted although the process's row has no such entry.

 The limit test lets the number of required pages itself through, and no test keeps out negative
 numbers. As long as the index lies inside the table it names a cell (q, j) of another process's row;
 the loops over the row still run over the requester's own.
 */
module Astray {
  import opened Counting
  import opened PageTable
  import opened FlatTable
  import opened Memory
  import Master

  predicate IsCell(mem: Memory, pid: nat, q: nat, j: nat) {
    pid < |mem.rows| && q < |mem.rows| && q != pid && j < |mem.rows[q]|
  }

  // ------------------------------------------------------------ what such a request does

  function AgedBelow(row: Row, cmp: int): (r: Row)
    ensures |r| == |row|
  {
    seq(|row|, i requires 0 <= i < |row| =>
      if row[i].valid && row[i].lastUsedAt < cmp then row[i].(lastUsedAt := row[i].lastUsedAt + 1) else row[i])
  }

  function AgedWithout(row: Row, victim: nat): (r: Row)
    ensures |r| == |row|
  {
    seq(|row|, i requires 0 <= i < |row| =>
      if i == victim then BLANK
      else if row[i].valid then row[i].(lastUsedAt := row[i].lastUsedAt + 1)
      else row[i])
  }

  /** A hit compares with the other row's stamp and resets that one. */
  function HitAstray(mem: Memory, pid: nat, q: nat, j: nat): Memory
    requires IsCell(mem, pid, q, j)
  {
    var cell := mem.rows[q][j];
    mem.(rows := mem.rows[pid := AgedBelow(mem.rows[pid], cell.lastUsedAt)]
                 [q := mem.rows[q][j := cell.(lastUsedAt := 0)]])
  }

  /** A fault without free frames hands the victim's frame to the other row. */
  function ReplaceAstray(mem: Memory, pid: nat, q: nat, j: nat, victim: nat): Memory
    requires IsCell(mem, pid, q, j) && victim < |mem.rows[pid]|
  {
    mem.(rows := mem.rows[pid := AgedWithout(mem.rows[pid], victim)]
                 [q := mem.rows[q][j := Entry(mem.rows[pid][victim].frame, true, 0)]])
  }

  /** With a free frame the requester's row gets it, unless the row is full: then nobody does. */
  function TakeFrame(mem: Memory, pid: nat): Memory
    requires pid < |mem.rows| && FirstFree(mem.free) < |mem.free|
  {
    var g := FirstFree(mem.free);
    mem.(rows := mem.rows[pid := Install(mem.rows[pid], g)], free := mem.free[g := false])
  }

  function FaultAstray(mem: Memory, pid: nat, q: nat, j: nat): Memory
    requires IsCell(mem, pid, q, j)
  {
    var row := mem.rows[pid];
    if FirstFree(mem.free) < |mem.free| then TakeFrame(mem, pid)
    else if !HasValid(row) then mem
    else
      var victim := OldestBelow(row, -1, |row|);
      if victim < 0 then mem else ReplaceAstray(mem, pid, q, j, victim)
  }

  function ServeAstray(mem: Memory, pid: nat, q: nat, j: nat): (o: Outcome)
    requires IsCell(mem, pid, q, j)
    ensures |o.mem.rows| == |mem.rows|
  {
    if mem.rows[q][j].valid then Outcome(HitAstray(mem, pid, q, j), Frame(mem.rows[q][j].frame), NoNote)
    else Outcome(FaultAstray(mem, pid, q, j), Fault, Told(Requeue(pid)))
  }

  // ------------------------------------------------------------ any request

  /** Refused or closing before the table is looked at. */
  predicate NeedsNoCell(mem: Memory, pid: nat, page: int)
    requires pid < |mem.reqd|
  {
    page == CLOSING || page > mem.reqd[pid]
  }

  /** The index of (pid, page) lies inside the table of k rows of m entries. */
  predicate InTable(k: nat, m: nat, pid: nat, page: int) {
    m > 0 && pid < k && 0 <= m * pid + page < k * m
  }

  ghost predicate Looked(mem: Memory, m: nat, pid: nat, page: int) {
    Shaped(mem, |mem.rows|, m) && InTable(|mem.rows|, m, pid, page)
  }

  ghost predicate Servable(mem: Memory, m: nat, pid: nat, page: int) {
    && Shaped(mem, |mem.rows|, m) && pid < |mem.rows|
    && (NeedsNoCell(mem, pid, page) || InTable(|mem.rows|, m, pid, page))
  }

  /** One request with any page number the code can look up. */
  ghost function ServeAny(mem: Memory, m: nat, pid: nat, page: int): (o: Outcome)
    requires Servable(mem, m, pid, page)
    ensures |o.mem.rows| == |mem.rows|
  {
    if NeedsNoCell(mem, pid, page) || 0 <= page < m then Serve(mem, pid, page)
    else
      CellOfPage(|mem.rows|, m, pid, page);
      ServeAstray(mem, pid, RowOf(m, pid, page), PlaceOf(m, page))
  }

  // ------------------------------------------------------------ rows that are no stacks

  lemma TwoLatestPages(row: Row, i: nat, j: nat)
    requires i < |row| && j < |row| && i != j && row[i].valid && row[j].valid
    requires row[i].lastUsedAt == row[j].lastUsedAt
    ensures !IsLru(row)
  {
    forall lru: seq<nat>
      ensures !Represents(row, lru)
    {
      assert row[i].valid && row[j].valid;
    }
  }

  lemma SomeLatestPage(row: Row) returns (i: nat)
    requires IsLru(row) && HasValid(row)
    ensures i < |row| && row[i].valid && row[i].lastUsedAt == 0
  {
    var lru :| Represents(row, lru);
    var v :| 0 <= v < |row| && row[v].valid;
    assert lru[row[v].lastUsedAt] == v;
    i := lru[0];
  }

  lemma LatestPageExists(row: Row)
    ensures IsLru(row) && HasValid(row) ==> exists i :: 0 <= i < |row| && row[i].valid && row[i].lastUsedAt == 0
  {
    if IsLru(row) && HasValid(row) {
      var i := SomeLatestPage(row);
    }
  }

  // ------------------------------------------------------------ when a hit does harm

  /** Stamps of a row that is still in use and of the requester's must not move. */
  ghost predicate HitIsHarmless(mem: Memory, live: set<nat>, pid: nat, q: nat, j: nat)
    requires IsCell(mem, pid, q, j)
  {
    var stamp := mem.rows[q][j].lastUsedAt;
    if q in live then stamp == 0 else stamp <= 0 || !HasValid(mem.rows[pid])
  }

  lemma NothingYounger(row: Row, cmp: int)
    requires (IsLru(row) && cmp <= 0) || !HasValid(row)
    ensures AgedBelow(row, cmp) == row
  {
    if cmp <= 0 && IsLru(row) {
      var lru :| Represents(row, lru);
    }
  }

  lemma HarmlessHit(mem: Memory, live: set<nat>, pid: nat, q: nat, j: nat)
    requires Owned(mem, live) && pid in live && IsCell(mem, pid, q, j) && mem.rows[q][j].valid
    requires HitIsHarmless(mem, live, pid, q, j)
    ensures Owned(HitAstray(mem, pid, q, j), live)
  {
    var cell, mem' := mem.rows[q][j], HitAstray(mem, pid, q, j);
    NothingYounger(mem.rows[pid], cell.lastUsedAt);
    assert mem.rows[pid := mem.rows[pid]] == mem.rows;
    if q in live {
      assert mem.rows[q][j := cell] == mem.rows[q];
      assert mem' == mem;
    } else {
      assert forall p :: p in live ==> p < |mem'.rows| && mem'.rows[p] == mem.rows[p];
      SameRowsSameOwners(mem, mem', live);
    }
  }

  /** Only the rows of live processes matter. */
  lemma SameRowsSameOwners(mem: Memory, mem': Memory, live: set<nat>)
    requires Owned(mem, live) && |mem'.rows| == |mem.rows| && mem'.free == mem.free
    requires forall p :: p in live ==> p < |mem.rows| && mem'.rows[p] == mem.rows[p]
    ensures Owned(mem', live)
  {
    assert forall p: nat, i: nat, g :: p in live ==> (Holds(mem', p, i, g) <==> Holds(mem, p, i, g));
    forall g | 0 <= g < |mem'.free| && !mem'.free[g]
      ensures exists p: nat, i: nat :: p in live && Holds(mem', p, i, g)
    {
      var p: nat, i: nat :| p in live && Holds(mem, p, i, g);
      assert Holds(mem', p, i, g);
    }
  }

  lemma HarmfulHit(mem: Memory, live: set<nat>, pid: nat, q: nat, j: nat)
    requires Owned(mem, live) && pid in live && IsCell(mem, pid, q, j) && mem.rows[q][j].valid
    requires !HitIsHarmless(mem, live, pid, q, j)
    ensures !Owned(HitAstray(mem, pid, q, j), live)
  {
    var row, mem' := mem.rows[pid], HitAstray(mem, pid, q, j);
    if q in live {
      var first := SomeLatestPage(mem.rows[q]);
      TwoLatestPages(mem'.rows[q], first, j);
    } else {
      var i :| 0 <= i < |row| && row[i].valid;
      var row' := AgedBelow(row, mem.rows[q][j].lastUsedAt);
      var lru :| Represents(row, lru);
      assert row'[i].valid;
      LatestPageExists(row');
      assert mem'.rows[pid] == row';
    }
  }

  // ------------------------------------------------------------ when a fault does harm

  ghost predicate FaultIsHarmless(mem: Memory, live: set<nat>, pid: nat, q: nat, j: nat)
    requires IsCell(mem, pid, q, j)
  {
    var row := mem.rows[pid];
    if FirstFree(mem.free) < |mem.free| then FirstInvalid(row) < |row|
    else !HasValid(row) || (q in live && !HasValid(mem.rows[q]) && OnlyOneValid(row))
  }

  ghost predicate OnlyOneValid(row: Row) {
    forall i, j :: 0 <= i < |row| && 0 <= j < |row| && row[i].valid && row[j].valid ==> i == j
  }

  /** A full row takes the frame off the free list and leaves it without an owner. */
  lemma TakenFrameIsLost(mem: Memory, live: set<nat>, pid: nat)
    requires Owned(mem, live) && pid in live
    requires FirstFree(mem.free) < |mem.free| && FirstInvalid(mem.rows[pid]) == |mem.rows[pid]|
    ensures !Owned(TakeFrame(mem, pid), live)
  {
    var g, mem' := FirstFree(mem.free), TakeFrame(mem, pid);
    assert mem'.rows == mem.rows;
    forall p: nat, i: nat | p in live
      ensures !Holds(mem', p, i, g)
    {
      assert Holds(mem', p, i, g) ==> Holds(mem, p, i, g);
    }
    assert g < |mem'.free| && !mem'.free[g];
  }

  lemma OldestOfOwn(mem: Memory, live: set<nat>, pid: nat)
    requires Owned(mem, live) && pid in live && HasValid(mem.rows[pid])
    ensures 0 <= OldestBelow(mem.rows[pid], -1, |mem.rows[pid]|)
  {
    var row := mem.rows[pid];
    var first := SomeLatestPage(row);
    assert row[first].lastUsedAt <= StampAt(row, OldestBelow(row, -1, |row|));
  }

  /** Who holds what after the victim's frame has gone to cell (q, j). */
  lemma HoldsAfterReplaceAstray(mem: Memory, pid: nat, q: nat, j: nat, victim: nat, p: nat, i: nat, h: int)
    requires IsCell(mem, pid, q, j) && victim < |mem.rows[pid]| && mem.rows[pid][victim].valid
    ensures Holds(ReplaceAstray(mem, pid, q, j, victim), p, i, h) <==>
              (if p == q && i == j then Holds(mem, pid, victim, h)
               else if p == pid && i == victim then false
               else Holds(mem, p, i, h))
  {
    var mem' := ReplaceAstray(mem, pid, q, j, victim);
    var row' := AgedWithout(mem.rows[pid], victim);
    assert mem'.rows[pid] == row';
    assert mem'.rows[q] == mem.rows[q][j := Entry(mem.rows[pid][victim].frame, true, 0)];
    assert p < |mem.rows| && p != pid && p != q ==> mem'.rows[p] == mem.rows[p];
    assert p == pid && i < |row'| && i != victim ==>
      row'[i].valid == mem.rows[pid][i].valid && row'[i].frame == mem.rows[pid][i].frame;
  }

  lemma HarmlessReplace(mem: Memory, live: set<nat>, pid: nat, q: nat, j: nat, victim: nat)
    requires Owned(mem, live) && pid in live && q in live && IsCell(mem, pid, q, j)
    requires victim < |mem.rows[pid]| && mem.rows[pid][victim].valid
    requires !HasValid(mem.rows[q]) && OnlyOneValid(mem.rows[pid])
    ensures Owned(ReplaceAstray(mem, pid, q, j, victim), live)
  {
    var mem' := ReplaceAstray(mem, pid, q, j, victim);
    var row' := AgedWithout(mem.rows[pid], victim);
    var next' := mem.rows[q][j := Entry(mem.rows[pid][victim].frame, true, 0)];
    assert mem'.rows[pid] == row' && mem'.rows[q] == next';
    assert Represents(row', []);
    assert Represents(next', [j]);
    assert forall p :: p in live && p != pid && p != q ==> mem'.rows[p] == mem.rows[p];
    ReplacedFrameMoves(mem, live, pid, q, j, victim);
  }

  /** The frames stay held once each when the receiving row is in use. */
  lemma ReplacedFrameMoves(mem: Memory, live: set<nat>, pid: nat, q: nat, j: nat, victim: nat)
    requires NoneDangling(mem, live) && NoneShared(mem, live) && NoneLost(mem, live)
    requires pid in live && q in live && IsCell(mem, pid, q, j)
    requires victim < |mem.rows[pid]| && mem.rows[pid][victim].valid && !mem.rows[q][j].valid
    ensures var mem' := ReplaceAstray(mem, pid, q, j, victim);
            NoneDangling(mem', live) && NoneShared(mem', live) && NoneLost(mem', live)
  {
    var mem' := ReplaceAstray(mem, pid, q, j, victim);
    forall p: nat, i: nat, h
      ensures Holds(mem', p, i, h) <==>
                (if p == q && i == j then Holds(mem, pid, victim, h)
                 else if p == pid && i == victim then false
                 else Holds(mem, p, i, h))
    {
      HoldsAfterReplaceAstray(mem, pid, q, j, victim, p, i, h);
    }
    forall h | 0 <= h < |mem'.free| && !mem'.free[h]
      ensures exists p: nat, i: nat :: p in live && Holds(mem', p, i, h)
    {
      var p: nat, i: nat :| p in live && Holds(mem, p, i, h);
      assert Holds(mem', if p == pid && i == victim then q else p, if p == pid && i == victim then j else i, h);
    }
  }

  lemma HarmfulReplace(mem: Memory, live: set<nat>, pid: nat, q: nat, j: nat, victim: nat)
    requires Owned(mem, live) && pid in live && IsCell(mem, pid, q, j) && !mem.rows[q][j].valid
    requires victim < |mem.rows[pid]| && mem.rows[pid][victim].valid
    requires victim == OldestBelow(mem.rows[pid], -1, |mem.rows[pid]|)
    requires q !in live || HasValid(mem.rows[q]) || !OnlyOneValid(mem.rows[pid])
    ensures !Owned(ReplaceAstray(mem, pid, q, j, victim), live)
  {
    var row, mem' := mem.rows[pid], ReplaceAstray(mem, pid, q, j, victim);
    if q !in live {
      var g := row[victim].frame;
      assert Holds(mem, pid, victim, g);
      forall p: nat, i: nat | p in live
        ensures !Holds(mem', p, i, g)
      {
        HoldsAfterReplaceAstray(mem, pid, q, j, victim, p, i, g);
      }
      assert 0 <= g < |mem'.free| && !mem'.free[g];
    } else if HasValid(mem.rows[q]) {
      var first := SomeLatestPage(mem.rows[q]);
      TwoLatestPages(mem'.rows[q], first, j);
    } else {
      var a, b :| 0 <= a < |row| && 0 <= b < |row| && row[a].valid && row[b].valid && a != b;
      var other := if a == victim then b else a;
      var row' := AgedWithout(row, victim);
      var lru :| Represents(row, lru);
      assert row'[other].valid;
      LatestPageExists(row');
      assert mem'.rows[pid] == row';
    }
  }

  // ------------------------------------------------------------ the laws for any request

  ghost predicate IsHarmless(mem: Memory, live: set<nat>, pid: nat, q: nat, j: nat)
    requires IsCell(mem, pid, q, j)
  {
    if mem.rows[q][j].valid then HitIsHarmless(mem, live, pid, q, j) else FaultIsHarmless(mem, live, pid, q, j)
  }

  /** A request that goes astray keeps the ownership discipline exactly when its branch does no harm. */
  lemma AstrayKeepsOwnedExactly(mem: Memory, live: set<nat>, pid: nat, q: nat, j: nat)
    requires Owned(mem, live) && pid in live && IsCell(mem, pid, q, j)
    ensures Owned(ServeAstray(mem, pid, q, j).mem, live) <==> IsHarmless(mem, live, pid, q, j)
  {
    var row := mem.rows[pid];
    if mem.rows[q][j].valid {
      if HitIsHarmless(mem, live, pid, q, j) {
        HarmlessHit(mem, live, pid, q, j);
      } else {
        HarmfulHit(mem, live, pid, q, j);
      }
    } else if FirstFree(mem.free) < |mem.free| {
      if FirstInvalid(row) < |row| {
        InstallKeepsOwned(mem, live, pid);
      } else {
        TakenFrameIsLost(mem, live, pid);
      }
    } else if HasValid(row) {
      OldestOfOwn(mem, live, pid);
      var victim := OldestBelow(row, -1, |row|);
      if q in live && !HasValid(mem.rows[q]) && OnlyOneValid(row) {
        HarmlessReplace(mem, live, pid, q, j, victim);
      } else {
        HarmfulReplace(mem, live, pid, q, j, victim);
      }
    }
  }

  /** The branch that a request with this page number takes leaves ownership alone. */
  ghost predicate IsSafe(mem: Memory, live: set<nat>, m: nat, pid: nat, page: int)
    requires Servable(mem, m, pid, page)
  {
    if NeedsNoCell(mem, pid, page) || 0 <= page < m then true
    else
      CellOfPage(|mem.rows|, m, pid, page);
      IsHarmless(mem, live, pid, RowOf(m, pid, page), PlaceOf(m, page))
  }

  /** Whatever the page number, as long as its index lies inside the table. */
  lemma ServeKeepsOwnedExactly(mem: Memory, live: set<nat>, m: nat, pid: nat, page: int)
    requires Servable(mem, m, pid, page) && Owned(mem, live) && pid in live
    ensures var o := ServeAny(mem, m, pid, page);
            Owned(o.mem, Survivors(live, o.told)) <==> IsSafe(mem, live, m, pid, page)
  {
    if NeedsNoCell(mem, pid, page) || 0 <= page < m {
      ServeKeepsOwned(mem, live, m, pid, page);
    } else {
      CellOfPage(|mem.rows|, m, pid, page);
      AstrayKeepsOwnedExactly(mem, live, pid, RowOf(m, pid, page), PlaceOf(m, page));
    }
  }

  /** Page m, accepted from a process that requires all m pages, is the next row's first. */
  lemma PastTheRowIsTheNextRow(k: nat, m: nat, pid: nat)
    requires m > 0 && pid < k
    ensures InTable(k, m, pid, m) <==> pid + 1 < k
    ensures RowOf(m, pid, m) == pid + 1 && PlaceOf(m, m) == 0
  {
    assert m * pid + m == m * (pid + 1);
    Monotone(m, k, pid + 1);
    Monotone(m, pid + 2, k);
    assert m * (pid + 2) == m * (pid + 1) + m;
    assert k * m == m * k;
  }

  // ------------------------------------------------------------ which pages become resident

  /** Only pages the process really has are resident. */
  ghost predicate Within(row: Row, n: nat) {
    forall i :: 0 <= i < |row| && row[i].valid ==> i < n
  }

  ghost function CellOf(mem: Memory, m: nat, pid: nat, page: int): Entry
    requires Looked(mem, m, pid, page)
  {
    CellOfPage(|mem.rows|, m, pid, page);
    mem.rows[RowOf(m, pid, page)][PlaceOf(m, page)]
  }

  /** Which request gets which answer, and what the scheduler is told. */
  lemma AnsweredByPageNumber(mem: Memory, m: nat, pid: nat, page: int)
    requires Servable(mem, m, pid, page)
    ensures var o := ServeAny(mem, m, pid, page);
            && (o.reply == Silent <==> page == -9)
            && (o.reply == Illegal <==> page != -9 && page > mem.reqd[pid])
            && (page != -9 && page <= mem.reqd[pid] ==>
                  o.reply == if CellOf(mem, m, pid, page).valid then Frame(CellOf(mem, m, pid, page).frame) else Fault)
            && o.told == if page == -9 || page > mem.reqd[pid] then Told(Ended(pid))
                         else if CellOf(mem, m, pid, page).valid then NoNote
                         else Told(Requeue(pid))
  {
    if page != -9 && page <= mem.reqd[pid] {
      CellOfPage(|mem.rows|, m, pid, page);
    }
  }

  /** What the fault makes resident in the requester's row, if anything, is one of its n pages. */
  ghost predicate FaultBringsOwnPage(mem: Memory, pid: nat, page: int, n: nat)
    requires pid < |mem.rows|
  {
    var row := mem.rows[pid];
    if FirstFree(mem.free) < |mem.free| then FirstInvalid(row) < n || FirstInvalid(row) == |row|
    else !HasValid(row) || page != n || n >= |row|
  }

  ghost predicate BringsOwnPage(mem: Memory, m: nat, pid: nat, page: int)
    requires Servable(mem, m, pid, page)
  {
    || NeedsNoCell(mem, pid, page)
    || CellOf(mem, m, pid, page).valid
    || FaultBringsOwnPage(mem, pid, page, mem.reqd[pid])
  }

  lemma OwnPageStaysWithin(mem: Memory, live: set<nat>, pid: nat, page: nat)
    requires Owned(mem, live) && pid in live && pid < |mem.reqd|
    requires page < |mem.rows[pid]| && page <= mem.reqd[pid] && Within(mem.rows[pid], mem.reqd[pid])
    ensures Within(Serve(mem, pid, page).mem.rows[pid], mem.reqd[pid]) <==>
              mem.rows[pid][page].valid || FaultBringsOwnPage(mem, pid, page, mem.reqd[pid])
  {
    var row, n := mem.rows[pid], mem.reqd[pid];
    var row' := Serve(mem, pid, page).mem.rows[pid];
    if !row[page].valid && FirstFree(mem.free) < |mem.free| {
      assert FirstInvalid(row) <= page;
      assert row'[FirstInvalid(row)].valid;
    } else if !row[page].valid && HasValid(row) {
      VictimExists(mem, live, pid, page);
      assert row'[page].valid;
    }
  }

  lemma OtherPageStaysWithin(mem: Memory, pid: nat, q: nat, j: nat, n: nat)
    requires IsCell(mem, pid, q, j) && Within(mem.rows[pid], n)
    ensures Within(ServeAstray(mem, pid, q, j).mem.rows[pid], n) <==>
              || mem.rows[q][j].valid || FirstFree(mem.free) >= |mem.free|
              || FirstInvalid(mem.rows[pid]) < n || FirstInvalid(mem.rows[pid]) == |mem.rows[pid]|
  {
    var row, mem' := mem.rows[pid], ServeAstray(mem, pid, q, j).mem;
    if !mem.rows[q][j].valid && FirstFree(mem.free) < |mem.free| && FirstInvalid(row) < |row| {
      assert mem'.rows[pid][FirstInvalid(row)].valid;
    }
  }

  /** Residency stays within the process's own pages exactly in these cases, whatever the page number. */
  lemma ResidencyStaysWithinExactly(mem: Memory, live: set<nat>, m: nat, pid: nat, page: int)
    requires Servable(mem, m, pid, page) && Owned(mem, live) && pid in live
    requires Within(mem.rows[pid], mem.reqd[pid])
    ensures Within(ServeAny(mem, m, pid, page).mem.rows[pid], mem.reqd[pid]) <==> BringsOwnPage(mem, m, pid, page)
  {
    if !NeedsNoCell(mem, pid, page) {
      CellOfPage(|mem.rows|, m, pid, page);
      if 0 <= page < m {
        OwnPageStaysWithin(mem, live, pid, page);
      } else {
        OtherPageStaysWithin(mem, pid, RowOf(m, pid, page), PlaceOf(m, page), mem.reqd[pid]);
      }
    }
  }

  /** From a layout of the master's: a process that requires page 0 only asks for page 1 and gets it. */
  lemma PageBeyondTheRequiredOnes()
    ensures var mem := Memory([MasterRow(2, 1, 0)], [false, true], [1]);
            && Master.Initial(mem, 2) && Within(mem.rows[0], 1)
            && Servable(mem, 2, 0, 1) && !Within(ServeAny(mem, 2, 0, 1).mem.rows[0], 1)
  {
    var mem := Memory([MasterRow(2, 1, 0)], [false, true], [1]);
    assert Master.Total([1]) == 1;
    assert Master.Share(1, 2, 1) == 1;
    assert Master.Base([1], 2, 1) == 1;
    assert FirstFree(mem.free) == 1;
    assert FirstInvalid(mem.rows[0]) == 1;
    assert ServeAny(mem, 2, 0, 1).mem.rows[0][1].valid;
  }
}
