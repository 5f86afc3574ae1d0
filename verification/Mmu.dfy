/** The memory-management unit: the request loop's body, updating the shared arrays in place. */
module Mmu {
  import opened PageTable
  import opened FlatTable
  import opened Memory
  import opened Astray

  // ------------------------------------------------------------ own and other rows under one name

  ghost function WithCell(rows: seq<Row>, m: nat, pid: nat, page: int, e: Entry): (r: seq<Row>)
    requires InTable(|rows|, m, pid, page) && forall p :: 0 <= p < |rows| ==> |rows[p]| == m
    ensures |r| == |rows| && forall p :: 0 <= p < |rows| ==> |r[p]| == m
  {
    CellOfPage(|rows|, m, pid, page);
    rows[RowOf(m, pid, page) := rows[RowOf(m, pid, page)][PlaceOf(m, page) := e]]
  }

  ghost function HitRows(mem: Memory, m: nat, pid: nat, page: int): seq<Row>
    requires Looked(mem, m, pid, page)
  {
    CellOfPage(|mem.rows|, m, pid, page);
    if 0 <= page < m then mem.rows[pid := Touch(mem.rows[pid], page)]
    else HitAstray(mem, pid, RowOf(m, pid, page), PlaceOf(m, page)).rows
  }

  ghost function ReplacedRows(mem: Memory, m: nat, pid: nat, page: int, victim: nat): seq<Row>
    requires Looked(mem, m, pid, page) && victim < m
  {
    CellOfPage(|mem.rows|, m, pid, page);
    if 0 <= page < m then mem.rows[pid := Replace(mem.rows[pid], page, victim)]
    else ReplaceAstray(mem, pid, RowOf(m, pid, page), PlaceOf(m, page), victim).rows
  }

  ghost function FaultAny(mem: Memory, m: nat, pid: nat, page: int): Memory
    requires Looked(mem, m, pid, page)
  {
    CellOfPage(|mem.rows|, m, pid, page);
    if 0 <= page < m then ServeFault(mem, pid, page)
    else FaultAstray(mem, pid, RowOf(m, pid, page), PlaceOf(m, page))
  }

  /** Ageing the row and then resetting the cell's stamp is the hit. */
  lemma AgedHit(mem: Memory, m: nat, pid: nat, page: int)
    requires Looked(mem, m, pid, page) && CellOf(mem, m, pid, page).valid
    ensures var cell := CellOf(mem, m, pid, page);
            var aged := mem.rows[pid := AgedBelow(mem.rows[pid], cell.lastUsedAt)];
            WithCell(aged, m, pid, page, CellOf(mem.(rows := aged), m, pid, page).(lastUsedAt := 0)) ==
              HitRows(mem, m, pid, page)
  {
    CellOfPage(|mem.rows|, m, pid, page);
    if 0 <= page < m {
      var row := mem.rows[pid];
      assert AgedBelow(row, row[page].lastUsedAt)[page := row[page].(lastUsedAt := 0)] == Touch(row, page);
    }
  }

  lemma HitKeepsFrame(mem: Memory, m: nat, pid: nat, page: int)
    requires Looked(mem, m, pid, page) && |HitRows(mem, m, pid, page)| == |mem.rows|
    requires forall p :: 0 <= p < |mem.rows| ==> |HitRows(mem, m, pid, page)[p]| == m
    ensures CellOf(mem.(rows := HitRows(mem, m, pid, page)), m, pid, page).frame == CellOf(mem, m, pid, page).frame
  {
    CellOfPage(|mem.rows|, m, pid, page);
  }

  lemma ServedByCell(mem: Memory, m: nat, pid: nat, page: int)
    requires Looked(mem, m, pid, page) && !NeedsNoCell(mem, pid, page)
    ensures var cell := CellOf(mem, m, pid, page);
            ServeAny(mem, m, pid, page) ==
              if cell.valid then Outcome(mem.(rows := HitRows(mem, m, pid, page)), Frame(cell.frame), NoNote)
              else Outcome(FaultAny(mem, m, pid, page), Fault, Told(Requeue(pid)))
  {
    CellOfPage(|mem.rows|, m, pid, page);
  }

  /** A row with a valid page has a victim, whatever page is asked for. */
  lemma VictimOfAny(mem: Memory, m: nat, pid: nat, page: int)
    requires Looked(mem, m, pid, page) && IsLru(mem.rows[pid]) && HasValid(mem.rows[pid])
    requires !CellOf(mem, m, pid, page).valid
    ensures var v := OldestBelow(mem.rows[pid], page, m);
            0 <= v && (!(0 <= page < m) ==> v == OldestBelow(mem.rows[pid], -1, m))
  {
    CellOfPage(|mem.rows|, m, pid, page);
    var row := mem.rows[pid];
    var first := SomeLatestPage(row);
    assert row[first].lastUsedAt <= StampAt(row, OldestBelow(row, page, m));
    if !(0 <= page < m) {
      OldestOfAll(row, page, m);
    }
  }

  /** rows1 and rows2 are the table after the first assignment and after the ageing loop. */
  lemma AssignmentsReplace(mem: Memory, m: nat, pid: nat, page: int, victim: nat, rows1: seq<Row>, rows2: seq<Row>)
    requires Looked(mem, m, pid, page) && victim < m && victim != page
    requires rows1 == WithCell(mem.rows, m, pid, page,
                        Entry(mem.rows[pid][victim].frame, true, CellOf(mem, m, pid, page).lastUsedAt))
    requires |rows2| == |rows1| && rows2 == rows1[pid := rows2[pid]] && |rows2[pid]| == m
    requires forall t :: 0 <= t < m ==>
               rows2[pid][t] ==
               var e := rows1[pid][t];
               if e.valid && t != page then e.(lastUsedAt := e.lastUsedAt + 1) else e
    ensures var rows3 := WithCell(rows2, m, pid, page, CellOf(mem.(rows := rows2), m, pid, page).(lastUsedAt := 0));
            rows3[pid := rows3[pid][victim := BLANK]] == ReplacedRows(mem, m, pid, page, victim)
  {
    CellOfPage(|mem.rows|, m, pid, page);
    var rows3 := WithCell(rows2, m, pid, page, CellOf(mem.(rows := rows2), m, pid, page).(lastUsedAt := 0));
    var row := mem.rows[pid];
    if 0 <= page < m {
      assert rows3[pid][victim := BLANK] == Replace(row, page, victim);
    } else {
      var q, j := RowOf(m, pid, page), PlaceOf(m, page);
      assert rows3[pid][victim := BLANK] == AgedWithout(row, victim);
      assert rows3[q] == mem.rows[q][j := Entry(row[victim].frame, true, 0)];
      assert forall p :: 0 <= p < |mem.rows| && p != pid && p != q ==> rows3[p] == mem.rows[p];
    }
  }

  class Mmu {
    const k: nat
    const m: nat
    const pageTables: array<Entry>
    const isFrameFree: array<bool>
    const maxPageIndex: seq<nat>
    const pageFaults: array<nat>
    const invalidPageReferences: array<nat>
    var globaltime: nat
    var mq2: seq<Note>

    ghost predicate Valid()
      reads this
    {
      && pageTables.Length == k * m
      && |maxPageIndex| == k && pageFaults.Length == k && invalidPageReferences.Length == k
      && pageFaults != invalidPageReferences
    }

    ghost function Table(): (t: seq<Row>)
      requires Valid()
      reads this, pageTables
      ensures |t| == k && forall p :: 0 <= p < k ==> |t[p]| == m
    {
      Rows(pageTables[..], k, m)
    }

    /** The arrays read as the abstract memory. */
    ghost function Mem(): Memory
      requires Valid()
      reads this, pageTables, isFrameFree
    {
      Memory(Table(), isFrameFree[..], maxPageIndex)
    }

    constructor (k: nat, m: nat, pageTables: array<Entry>, isFrameFree: array<bool>, reqd: seq<nat>)
      requires pageTables.Length == k * m && |reqd| == k
      ensures Valid() && this.k == k && this.m == m
      ensures this.pageTables == pageTables && this.isFrameFree == isFrameFree && maxPageIndex == reqd
      ensures mq2 == [] && globaltime == 0
      ensures fresh(pageFaults) && fresh(invalidPageReferences)
      ensures forall p :: 0 <= p < k ==> pageFaults[p] == 0 && invalidPageReferences[p] == 0
    {
      this.k, this.m := k, m;
      this.pageTables, this.isFrameFree, maxPageIndex := pageTables, isFrameFree, reqd;
      pageFaults := new nat[k](_ => 0);
      invalidPageReferences := new nat[k](_ => 0);
      globaltime, mq2 := 0, [];
    }

    // ------------------------------------------------------------ one entry of the process's own row

    function Get(pid: nat, i: nat): (e: Entry)
      requires Valid() && pid < k && i < m
      reads this, pageTables
      ensures e == Table()[pid][i]
    {
      RowFits(m, pid, k);
      pageTables[m * pid + i]
    }

    method Put(pid: nat, i: nat, e: Entry)
      requires Valid() && pid < k && i < m
      modifies pageTables
      ensures Table() == old(Table())[pid := old(Table())[pid][i := e]]
    {
      RowFits(m, pid, k);
      pageTables[m * pid + i] := e;
      RowWritten(old(pageTables[..]), pageTables[..], k, m, pid);
      assert RowAt(pageTables[..], k, m, pid) == RowAt(old(pageTables[..]), k, m, pid)[i := e];
    }

    // ------------------------------------------------------------ the entry a page number leads to

    ghost function CellAt(pid: nat, page: int): Entry
      requires Valid() && InTable(k, m, pid, page)
      reads this, pageTables
    {
      CellOfPage(k, m, pid, page);
      Table()[RowOf(m, pid, page)][PlaceOf(m, page)]
    }

    function GetCell(pid: nat, page: int): (e: Entry)
      requires Valid() && InTable(k, m, pid, page)
      reads this, pageTables
      ensures e == CellAt(pid, page)
    {
      CellOfPage(k, m, pid, page);
      RowFits(m, RowOf(m, pid, page), k);
      pageTables[m * pid + page]
    }

    method PutCell(pid: nat, page: int, e: Entry)
      requires Valid() && InTable(k, m, pid, page)
      modifies pageTables
      ensures Table() == WithCell(old(Table()), m, pid, page, e)
    {
      CellOfPage(k, m, pid, page);
      ghost var q, j := RowOf(m, pid, page), PlaceOf(m, page);
      RowFits(m, q, k);
      pageTables[m * pid + page] := e;
      RowWritten(old(pageTables[..]), pageTables[..], k, m, q);
      assert RowAt(pageTables[..], k, m, q) == RowAt(old(pageTables[..]), k, m, q)[j := e];
    }

    // ------------------------------------------------------------ hit

    /** Every valid entry of the row with a stamp below cmp gets one step older. */
    method AgeYounger(pid: nat, cmp: int)
      requires Valid() && pid < k
      modifies pageTables
      ensures Table() == old(Table())[pid := AgedBelow(old(Table())[pid], cmp)]
    {
      ghost var row := Table()[pid];
      var i := 0;
      while i < m
        invariant 0 <= i <= m
        invariant Table() == old(Table())[pid := Table()[pid]]
        invariant forall t :: 0 <= t < m ==> Table()[pid][t] == if t < i then AgedBelow(row, cmp)[t] else row[t]
      {
        var e := Get(pid, i);
        if e.valid && e.lastUsedAt < cmp {
          Put(pid, i, e.(lastUsedAt := e.lastUsedAt + 1));
        }
        i := i + 1;
      }
      assert Table()[pid] == AgedBelow(row, cmp);
    }

    method RecordHit(pid: nat, page: int)
      requires Valid() && InTable(k, m, pid, page) && GetCell(pid, page).valid
      modifies pageTables
      ensures Table() == HitRows(old(Mem()), m, pid, page)
    {
      ghost var rows := Table();
      var cmp := GetCell(pid, page).lastUsedAt;
      AgeYounger(pid, cmp);
      AgedHit(old(Mem()), m, pid, page);
      PutCell(pid, page, GetCell(pid, page).(lastUsedAt := 0));
    }

    // ------------------------------------------------------------ fault

    method FindFreeFrame() returns (frameNumber: int)
      ensures frameNumber == if FirstFree(isFrameFree[..]) == isFrameFree.Length then -1 else FirstFree(isFrameFree[..])
    {
      frameNumber := -1;
      var i := 0;
      while i < isFrameFree.Length
        invariant 0 <= i <= isFrameFree.Length && frameNumber == -1
        invariant forall g :: 0 <= g < i ==> !isFrameFree[g]
      {
        if isFrameFree[i] {
          frameNumber := i;
          break;
        }
        i := i + 1;
      }
      ghost var g := FirstFree(isFrameFree[..]);
      assert forall j :: 0 <= j < g ==> !isFrameFree[..][j];
    }

    /** Every other valid entry of the row gets one step older. */
    method AgeOthers(pid: nat, keep: int)
      requires Valid() && pid < k
      modifies pageTables
      ensures Table() == old(Table())[pid := Table()[pid]]
      ensures forall t :: 0 <= t < m ==>
                Table()[pid][t] ==
                var e := old(Table())[pid][t];
                if e.valid && t != keep then e.(lastUsedAt := e.lastUsedAt + 1) else e
    {
      ghost var row := Table()[pid];
      var j := 0;
      while j < m
        invariant 0 <= j <= m
        invariant Table() == old(Table())[pid := Table()[pid]]
        invariant forall t :: 0 <= t < m ==>
          Table()[pid][t] ==
          if t < j && row[t].valid && t != keep then row[t].(lastUsedAt := row[t].lastUsedAt + 1) else row[t]
      {
        var e := Get(pid, j);
        if e.valid && j != keep {
          Put(pid, j, e.(lastUsedAt := e.lastUsedAt + 1));
        }
        j := j + 1;
      }
    }

    /** The free-frame branch: the first invalid entry gets the frame. */
    method InstallFrame(pid: nat, frameNumber: nat)
      requires Valid() && pid < k
      modifies pageTables
      ensures Table() == old(Table())[pid := Install(old(Table())[pid], frameNumber)]
    {
      ghost var row := Table()[pid];
      var i := 0;
      while i < m
        invariant 0 <= i <= m
        invariant Table() == old(Table())
        invariant forall t :: 0 <= t < i ==> row[t].valid
      {
        if !Get(pid, i).valid {
          Put(pid, i, Entry(frameNumber, true, 0));
          AgeOthers(pid, i);
          assert FirstInvalid(row) == i;
          assert Table()[pid] == Install(row, frameNumber);
          return;
        }
        i := i + 1;
      }
      assert FirstInvalid(row) == m;
    }

    method IsEmptySet(pid: nat) returns (empty: bool)
      requires Valid() && pid < k
      ensures empty == !HasValid(Table()[pid])
    {
      var i := 0;
      while i < m
        invariant 0 <= i <= m
        invariant forall t :: 0 <= t < i ==> !Table()[pid][t].valid
      {
        if Get(pid, i).valid {
          return false;
        }
        i := i + 1;
      }
      return true;
    }

    method FindOldest(pid: nat, page: int) returns (v: int)
      requires Valid() && pid < k
      ensures v == OldestBelow(Table()[pid], page, m)
    {
      v := -1;
      var max := -1;
      var i := 0;
      while i < m
        invariant 0 <= i <= m
        invariant v == OldestBelow(Table()[pid], page, i) && max == StampAt(Table()[pid], v)
      {
        if i != page {
          var e := Get(pid, i);
          if e.valid && e.lastUsedAt > max {
            max := e.lastUsedAt;
            v := i;
          }
        }
        i := i + 1;
      }
    }

    method ReplacePage(pid: nat, page: int, victim: nat)
      requires Valid() && InTable(k, m, pid, page) && victim < m && victim != page
      modifies pageTables
      ensures Table() == ReplacedRows(old(Mem()), m, pid, page, victim)
    {
      CellOfPage(k, m, pid, page);
      ghost var rows := Table();
      PutCell(pid, page, Entry(Get(pid, victim).frame, true, GetCell(pid, page).lastUsedAt));
      ghost var rows1 := Table();
      AgeOthers(pid, page);
      ghost var rows2 := Table();
      PutCell(pid, page, GetCell(pid, page).(lastUsedAt := 0));
      Put(pid, victim, BLANK);
      AssignmentsReplace(old(Mem()), m, pid, page, victim, rows1, rows2);
    }

    method PageFaultHandler(page: int, pid: nat)
      requires Valid() && InTable(k, m, pid, page)
      requires IsLru(Table()[pid]) && !GetCell(pid, page).valid
      modifies pageTables, isFrameFree, this`mq2
      ensures Mem() == FaultAny(old(Mem()), m, pid, page)
      ensures mq2 == old(mq2) + [Requeue(pid)]
    {
      CellOfPage(k, m, pid, page);
      var frameNumber := FindFreeFrame();
      if frameNumber != -1 {
        InstallFrame(pid, frameNumber);
        isFrameFree[frameNumber] := false;
        mq2 := mq2 + [Requeue(pid)];
      } else {
        var empty := IsEmptySet(pid);
        if empty {
          mq2 := mq2 + [Requeue(pid)];
        } else {
          VictimOfAny(Mem(), m, pid, page);
          var victim := FindOldest(pid, page);
          ReplacePage(pid, page, victim);
          mq2 := mq2 + [Requeue(pid)];
        }
      }
    }

    // ------------------------------------------------------------ end of a process

    method FreeFramesOf(pid: nat)
      requires Valid() && pid < k
      requires forall i :: 0 <= i < m && Table()[pid][i].valid ==> 0 <= Table()[pid][i].frame < isFrameFree.Length
      modifies isFrameFree
      ensures isFrameFree[..] == Release(old(isFrameFree[..]), Table()[pid])
    {
      ghost var row := Table()[pid];
      var i := 0;
      while i < m
        invariant 0 <= i <= m
        invariant Table()[pid] == row
        invariant forall g :: 0 <= g < isFrameFree.Length ==>
          isFrameFree[g] == (old(isFrameFree[g]) || Uses(row[..i], g))
      {
        var e := Get(pid, i);
        assert row[..i + 1] == row[..i] + [row[i]];
        forall g: int
          ensures Uses(row[..i + 1], g) <==> Uses(row[..i], g) || (row[i].valid && row[i].frame == g)
        {
          UsesLast(row, i, g);
        }
        if e.valid {
          isFrameFree[e.frame] := true;
        }
        i := i + 1;
      }
      assert row[..m] == row;
    }

    // ------------------------------------------------------------ the request loop's body

    /** A hit or a fault, once the page number has passed the limit test. */
    method HandleLookup(pid: nat, page: int) returns (reply: Reply)
      requires Valid() && InTable(k, m, pid, page) && IsLru(Table()[pid])
      modifies this`mq2, pageTables, isFrameFree
      ensures var cell := old(CellAt(pid, page));
              if cell.valid then
                && Mem() == old(Mem()).(rows := HitRows(old(Mem()), m, pid, page))
                && reply == Frame(cell.frame) && mq2 == old(mq2)
              else
                Mem() == FaultAny(old(Mem()), m, pid, page) && reply == Fault && mq2 == old(mq2) + [Requeue(pid)]
    {
      if GetCell(pid, page).valid {
        RecordHit(pid, page);
        HitKeepsFrame(old(Mem()), m, pid, page);
        reply := Frame(GetCell(pid, page).frame);
      } else {
        PageFaultHandler(page, pid);
        reply := Fault;
      }
    }

    /**
     Serving (pid, page) does to the arrays what `ServeAny` does to the abstract memory, for every page number
     that is refused or leads to an index inside the table; frames stay owned exactly when that is safe.
     */
    method HandleRequest(pid: nat, page: int, ghost live: set<nat>) returns (reply: Reply)
      requires Valid() && pid < k && pid in live && Owned(Mem(), live)
      requires NeedsNoCell(Mem(), pid, page) || InTable(k, m, pid, page)
      modifies this`globaltime, this`mq2, pageTables, isFrameFree, pageFaults, invalidPageReferences
      ensures var o := ServeAny(old(Mem()), m, pid, page);
              && Mem() == o.mem && reply == o.reply
              && mq2 == old(mq2) + (if o.told.Told? then [o.told.note] else [])
      ensures Owned(Mem(), Survivors(live, ServeAny(old(Mem()), m, pid, page).told)) <==>
                IsSafe(old(Mem()), live, m, pid, page)
      ensures globaltime == old(globaltime) + 1
      ensures reply == Silent <==> page == -9
      ensures reply == Illegal <==> page != -9 && page > maxPageIndex[pid]
      ensures page != -9 && page <= maxPageIndex[pid] ==>
                reply == if old(CellAt(pid, page)).valid then Frame(old(CellAt(pid, page)).frame) else Fault
      ensures mq2 == old(mq2) + if page == -9 || page > maxPageIndex[pid] then [Ended(pid)]
                                else if old(CellAt(pid, page)).valid then []
                                else [Requeue(pid)]
      ensures forall p :: 0 <= p < k ==>
                pageFaults[p] == old(pageFaults[p]) +
                  if p == pid && page != -9 && page <= maxPageIndex[pid] && !old(CellAt(pid, page)).valid then 1 else 0
      ensures forall p :: 0 <= p < k ==>
                invalidPageReferences[p] ==
                  old(invalidPageReferences[p]) + if p == pid && page != -9 && page > maxPageIndex[pid] then 1 else 0
    {
      AnsweredByPageNumber(Mem(), m, pid, page);
      ServeKeepsOwnedExactly(Mem(), live, m, pid, page);
      globaltime := globaltime + 1;
      if page == CLOSING {
        FramesInRange(Mem(), live, pid);
        FreeFramesOf(pid);
        mq2 := mq2 + [Ended(pid)];
        reply := Silent;
      } else if page > maxPageIndex[pid] {
        FramesInRange(Mem(), live, pid);
        FreeFramesOf(pid);
        reply := Illegal;
        invalidPageReferences[pid] := invalidPageReferences[pid] + 1;
        mq2 := mq2 + [Ended(pid)];
      } else {
        ServedByCell(Mem(), m, pid, page);
        reply := HandleLookup(pid, page);
        if reply == Fault {
          pageFaults[pid] := pageFaults[pid] + 1;
        }
      }
    }
  }

  lemma UsesLast(row: Row, i: nat, g: int)
    requires i < |row|
    ensures Uses(row[..i + 1], g) <==> Uses(row[..i], g) || (row[i].valid && row[i].frame == g)
  {
    if Uses(row[..i], g) {
      var j :| 0 <= j < i && row[..i][j].valid && row[..i][j].frame == g;
      assert row[..i + 1][j].valid && row[..i + 1][j].frame == g;
    }
    if row[i].valid && row[i].frame == g {
      assert row[..i + 1][i].valid;
    }
    if Uses(row[..i + 1], g) {
      var j :| 0 <= j < i + 1 && row[..i + 1][j].valid && row[..i + 1][j].frame == g;
      if j < i {
        assert row[..i][j].valid && row[..i][j].frame == g;
      }
    }
  }

  lemma FramesInRange(mem: Memory, live: set<nat>, pid: nat)
    requires Owned(mem, live) && pid in live
    ensures forall i :: 0 <= i < |mem.rows[pid]| && mem.rows[pid][i].valid ==>
              0 <= mem.rows[pid][i].frame < |mem.free|
  {
    forall i | 0 <= i < |mem.rows[pid]| && mem.rows[pid][i].valid
      ensures 0 <= mem.rows[pid][i].frame < |mem.free|
    {
      assert Holds(mem, pid, i, mem.rows[pid][i].frame);
    }
  }
}
