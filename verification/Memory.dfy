/**
 Page tables of all processes together with the free-frame array, and what one
 request to the MMU does to them.
 */
module Memory {
  import opened Counting
  import opened PageTable

  /** rows[p] is the page table of process p, free[g] says frame g is unused, reqd[p] is its page count. */
  datatype Memory = Memory(rows: seq<Row>, free: seq<bool>, reqd: seq<nat>)

  /** What the process reads back from the MMU (nothing after its closing message). */
  datatype Reply = Frame(frame: int) | Fault | Illegal | Silent

  /** What the MMU tells the scheduler. */
  datatype Note = Requeue(pid: nat) | Ended(pid: nat)

  datatype MaybeNote = NoNote | Told(note: Note)

  datatype Outcome = Outcome(mem: Memory, reply: Reply, told: MaybeNote)

  const CLOSING: int := -9

  ghost predicate Shaped(mem: Memory, k: nat, m: nat) {
    |mem.rows| == k && |mem.reqd| == k && forall p :: 0 <= p < k ==> |mem.rows[p]| == m
  }

  /** Page numbers the table can be indexed with, or that are refused before indexing, or the closing message. */
  ghost predicate Admissible(mem: Memory, m: nat, pid: nat, page: int)
    requires pid < |mem.reqd|
  {
    page == CLOSING || 0 <= page < m || page > mem.reqd[pid]
  }

  /** Lowest-numbered free frame, |free| when there is none. */
  function FirstFree(free: seq<bool>): (g: nat)
    ensures g <= |free|
    ensures forall j :: 0 <= j < g ==> !free[j]
    ensures g < |free| ==> free[g]
  {
    if free == [] || free[0] then 0 else FirstFree(free[1..]) + 1
  }

  predicate HasValid(row: Row) {
    exists i :: 0 <= i < |row| && row[i].valid
  }

  predicate Uses(row: Row, g: int) {
    exists i :: 0 <= i < |row| && row[i].valid && row[i].frame == g
  }

  /** Every frame of a leaving process becomes free; its row is left as it is. */
  function Release(free: seq<bool>, row: Row): (r: seq<bool>)
    ensures |r| == |free|
  {
    seq(|free|, g requires 0 <= g < |free| => free[g] || Uses(row, g))
  }

  function ServeFault(mem: Memory, pid: nat, page: nat): Memory
    requires pid < |mem.rows| && page < |mem.rows[pid]|
  {
    var row := mem.rows[pid];
    var g := FirstFree(mem.free);
    if g < |mem.free| then
      mem.(rows := mem.rows[pid := Install(row, g)], free := mem.free[g := false])
    else if !HasValid(row) then mem
    else
      var victim := OldestBelow(row, page, |row|);
      if victim < 0 then mem
      else mem.(rows := mem.rows[pid := Replace(row, page, victim)])
  }

  /** One request (pid, page): the MMU's main loop body. */
  function Serve(mem: Memory, pid: nat, page: int): Outcome
    requires pid < |mem.rows| && pid < |mem.reqd|
    requires page == CLOSING || 0 <= page < |mem.rows[pid]| || page > mem.reqd[pid]
  {
    var row := mem.rows[pid];
    if page == CLOSING then
      Outcome(mem.(free := Release(mem.free, row)), Silent, Told(Ended(pid)))
    else if page > mem.reqd[pid] then
      Outcome(mem.(free := Release(mem.free, row)), Illegal, Told(Ended(pid)))
    else if row[page].valid then
      Outcome(mem.(rows := mem.rows[pid := Touch(row, page)]), Frame(row[page].frame), NoNote)
    else
      Outcome(ServeFault(mem, pid, page), Fault, Told(Requeue(pid)))
  }

  // ------------------------------------------------------------ frame ownership

  ghost predicate Holds(mem: Memory, p: nat, i: nat, g: int) {
    p < |mem.rows| && i < |mem.rows[p]| && mem.rows[p][i].valid && mem.rows[p][i].frame == g
  }

  ghost predicate IsLru(row: Row) {
    exists lru: seq<nat> :: Represents(row, lru)
  }

  ghost predicate BlanksAreBlank(row: Row) {
    forall i :: 0 <= i < |row| && !row[i].valid ==> row[i] == BLANK
  }

  ghost predicate Stacked(mem: Memory, live: set<nat>) {
    forall p :: p in live ==> p < |mem.rows| && IsLru(mem.rows[p]) && BlanksAreBlank(mem.rows[p])
  }

  ghost predicate NoneDangling(mem: Memory, live: set<nat>) {
    forall p, i, g :: p in live && Holds(mem, p, i, g) ==> 0 <= g < |mem.free| && !mem.free[g]
  }

  ghost predicate NoneShared(mem: Memory, live: set<nat>) {
    forall p, i, q, j, g :: p in live && q in live && Holds(mem, p, i, g) && Holds(mem, q, j, g) ==> p == q && i == j
  }

  ghost predicate NoneLost(mem: Memory, live: set<nat>) {
    forall g :: 0 <= g < |mem.free| && !mem.free[g] ==> exists p: nat, i: nat :: p in live && Holds(mem, p, i, g)
  }

  /** Each frame is free or held by exactly one valid entry of one live process. */
  ghost predicate Owned(mem: Memory, live: set<nat>) {
    Stacked(mem, live) && NoneDangling(mem, live) && NoneShared(mem, live) && NoneLost(mem, live)
  }

  ghost function Survivors(live: set<nat>, told: MaybeNote): set<nat> {
    if told.Told? && told.note.Ended? then live - {told.note.pid} else live
  }

  lemma ReleaseKeepsOwned(mem: Memory, live: set<nat>, pid: nat)
    requires Owned(mem, live) && pid in live
    ensures Owned(mem.(free := Release(mem.free, mem.rows[pid])), live - {pid})
  {
    var mem' := mem.(free := Release(mem.free, mem.rows[pid]));
    forall p, i, g | p in live - {pid} && Holds(mem', p, i, g)
      ensures 0 <= g < |mem'.free| && !mem'.free[g]
    {
      assert Holds(mem, p, i, g);
      if Uses(mem.rows[pid], g) {
        var j :| 0 <= j < |mem.rows[pid]| && mem.rows[pid][j].valid && mem.rows[pid][j].frame == g;
        assert Holds(mem, pid, j, g);
      }
    }
    forall p, i, q, j, g | p in live - {pid} && q in live - {pid} && Holds(mem', p, i, g) && Holds(mem', q, j, g)
      ensures p == q && i == j
    {
      assert Holds(mem, p, i, g) && Holds(mem, q, j, g);
    }
    forall g | 0 <= g < |mem'.free| && !mem'.free[g]
      ensures exists p: nat, i: nat :: p in live - {pid} && Holds(mem', p, i, g)
    {
      var p: nat, i: nat :| p in live && Holds(mem, p, i, g);
      assert p != pid;
      assert Holds(mem', p, i, g);
    }
  }

  lemma TouchKeepsOwned(mem: Memory, live: set<nat>, pid: nat, page: nat)
    requires Owned(mem, live) && pid in live && page < |mem.rows[pid]| && mem.rows[pid][page].valid
    ensures Owned(mem.(rows := mem.rows[pid := Touch(mem.rows[pid], page)]), live)
  {
    var row := mem.rows[pid];
    var row' := Touch(row, page);
    var mem' := mem.(rows := mem.rows[pid := row']);
    var lru :| Represents(row, lru);
    TouchIsMoveToFront(row, lru, page);
    assert forall p: nat, i: nat, g :: Holds(mem', p, i, g) <==> Holds(mem, p, i, g);
  }

  lemma HoldsAfterInstall(mem: Memory, pid: nat, g: nat, p: nat, i: nat, h: int)
    requires pid < |mem.rows| && FirstInvalid(mem.rows[pid]) < |mem.rows[pid]| && g < |mem.free|
    ensures Holds(mem.(rows := mem.rows[pid := Install(mem.rows[pid], g)], free := mem.free[g := false]), p, i, h) <==>
              if p == pid && i == FirstInvalid(mem.rows[pid]) then h == g else Holds(mem, p, i, h)
  {
    var row' := Install(mem.rows[pid], g);
    assert mem.rows[pid := row'][pid] == row';
  }

  lemma InstallKeepsOwned(mem: Memory, live: set<nat>, pid: nat)
    requires Owned(mem, live) && pid in live
    requires FirstFree(mem.free) < |mem.free| && FirstInvalid(mem.rows[pid]) < |mem.rows[pid]|
    ensures var g := FirstFree(mem.free);
            Owned(mem.(rows := mem.rows[pid := Install(mem.rows[pid], g)], free := mem.free[g := false]), live)
  {
    var g := FirstFree(mem.free);
    var mem' := mem.(rows := mem.rows[pid := Install(mem.rows[pid], g)], free := mem.free[g := false]);
    var lru :| Represents(mem.rows[pid], lru);
    InstallPrepends(mem.rows[pid], lru, g);
    InstalledFrameIsTaken(mem, live, pid);
    forall p: nat, i: nat, h
      ensures Holds(mem', p, i, h) <==>
                if p == pid && i == FirstInvalid(mem.rows[pid]) then h == g else Holds(mem, p, i, h)
    {
      HoldsAfterInstall(mem, pid, g, p, i, h);
    }
  }

  /** The frame taken has its new entry as holder, the other used frames keep theirs. */
  lemma InstalledFrameIsTaken(mem: Memory, live: set<nat>, pid: nat)
    requires NoneLost(mem, live) && pid in live && pid < |mem.rows|
    requires FirstFree(mem.free) < |mem.free| && FirstInvalid(mem.rows[pid]) < |mem.rows[pid]|
    ensures var g := FirstFree(mem.free);
            NoneLost(mem.(rows := mem.rows[pid := Install(mem.rows[pid], g)], free := mem.free[g := false]), live)
  {
    var g, first := FirstFree(mem.free), FirstInvalid(mem.rows[pid]);
    var mem' := mem.(rows := mem.rows[pid := Install(mem.rows[pid], g)], free := mem.free[g := false]);
    forall h | 0 <= h < |mem'.free| && !mem'.free[h]
      ensures exists p: nat, i: nat :: p in live && Holds(mem', p, i, h)
    {
      if h == g {
        HoldsAfterInstall(mem, pid, g, pid, first, g);
      } else {
        var p: nat, i: nat :| p in live && Holds(mem, p, i, h);
        HoldsAfterInstall(mem, pid, g, p, i, h);
      }
    }
  }

  lemma HoldsAfterReplace(mem: Memory, pid: nat, page: nat, victim: nat, p: nat, i: nat, h: int)
    requires pid < |mem.rows| && page < |mem.rows[pid]| && victim < |mem.rows[pid]|
    requires mem.rows[pid][victim].valid && page != victim
    ensures Holds(mem.(rows := mem.rows[pid := Replace(mem.rows[pid], page, victim)]), p, i, h) <==>
              (if p == pid && i == page then Holds(mem, p, victim, h)
               else if p == pid && i == victim then false
               else Holds(mem, p, i, h))
  {
    var row' := Replace(mem.rows[pid], page, victim);
    assert mem.rows[pid := row'][pid] == row';
    assert p == pid && i < |row'| && i != page && i != victim ==>
      row'[i].valid == mem.rows[pid][i].valid && row'[i].frame == mem.rows[pid][i].frame;
  }

  lemma ReplaceKeepsOwned(mem: Memory, live: set<nat>, pid: nat, page: nat, victim: nat)
    requires Owned(mem, live) && pid in live
    requires page < |mem.rows[pid]| && !mem.rows[pid][page].valid && HasValid(mem.rows[pid])
    requires victim == OldestBelow(mem.rows[pid], page, |mem.rows[pid]|)
    ensures victim < |mem.rows[pid]|
    ensures Owned(mem.(rows := mem.rows[pid := Replace(mem.rows[pid], page, victim)]), live)
  {
    var row := mem.rows[pid];
    var lru :| Represents(row, lru);
    ReplaceDropsLast(row, lru, page);
    var mem' := mem.(rows := mem.rows[pid := Replace(row, page, victim)]);
    forall p: nat, i: nat, h
      ensures Holds(mem', p, i, h) <==>
                (if p == pid && i == page then Holds(mem, p, victim, h)
                 else if p == pid && i == victim then false
                 else Holds(mem, p, i, h))
    {
      HoldsAfterReplace(mem, pid, page, victim, p, i, h);
    }
    forall h | 0 <= h < |mem'.free| && !mem'.free[h]
      ensures exists p: nat, i: nat :: p in live && Holds(mem', p, i, h)
    {
      var p: nat, i: nat :| p in live && Holds(mem, p, i, h);
      assert Holds(mem', p, if p == pid && i == victim then page else i, h);
    }
  }

  /** A process with a valid entry always has a victim, so the fallback of `ServeFault` is never taken. */
  lemma VictimExists(mem: Memory, live: set<nat>, pid: nat, page: nat)
    requires Owned(mem, live) && pid in live && page < |mem.rows[pid]| && !mem.rows[pid][page].valid
    requires HasValid(mem.rows[pid])
    ensures 0 <= OldestBelow(mem.rows[pid], page, |mem.rows[pid]|)
  {
    var row := mem.rows[pid];
    var lru :| Represents(row, lru);
    ReplaceDropsLast(row, lru, page);
  }

  /** Every request keeps the ownership discipline for the processes that survive it. */
  lemma ServeKeepsOwned(mem: Memory, live: set<nat>, m: nat, pid: nat, page: int)
    requires Shaped(mem, |mem.rows|, m) && Owned(mem, live) && pid in live && Admissible(mem, m, pid, page)
    ensures var o := Serve(mem, pid, page);
            Owned(o.mem, Survivors(live, o.told)) && Shaped(o.mem, |mem.rows|, m) && o.mem.reqd == mem.reqd
            && |o.mem.free| == |mem.free|
  {
    if page == CLOSING || page > mem.reqd[pid] {
      ReleaseKeepsOwned(mem, live, pid);
    } else if mem.rows[pid][page].valid {
      TouchKeepsOwned(mem, live, pid, page);
    } else if FirstFree(mem.free) < |mem.free| {
      InstallKeepsOwned(mem, live, pid);
    } else if HasValid(mem.rows[pid]) {
      VictimExists(mem, live, pid, page);
      ReplaceKeepsOwned(mem, live, pid, page, OldestBelow(mem.rows[pid], page, |mem.rows[pid]|));
    }
  }

  // ------------------------------------------------------------ conservation

  ghost function FreeFrames(mem: Memory): set<nat> {
    set g: nat | g < |mem.free| && mem.free[g]
  }

  /** The resident pages of the live processes, as (process, page) pairs. */
  ghost function Resident(mem: Memory, live: set<nat>): set<(nat, nat)>
    requires forall p :: p in live ==> p < |mem.rows|
  {
    set p, i | p in live && 0 <= i < |mem.rows[p]| && mem.rows[p][i].valid :: (p, i)
  }

  ghost function FrameOf(mem: Memory, slot: (nat, nat)): int
    requires slot.0 < |mem.rows| && slot.1 < |mem.rows[slot.0]|
  {
    mem.rows[slot.0][slot.1].frame
  }

  ghost function Frames(mem: Memory, slots: set<(nat, nat)>): set<int>
    requires forall s :: s in slots ==> s.0 < |mem.rows| && s.1 < |mem.rows[s.0]|
  {
    set s | s in slots :: FrameOf(mem, s)
  }

  lemma {:induction false} ImageHasSameSize(mem: Memory, slots: set<(nat, nat)>)
    requires forall s :: s in slots ==> s.0 < |mem.rows| && s.1 < |mem.rows[s.0]|
    requires forall s, t :: s in slots && t in slots && FrameOf(mem, s) == FrameOf(mem, t) ==> s == t
    ensures |slots| == |Frames(mem, slots)|
  {
    if slots != {} {
      var s :| s in slots;
      ImageHasSameSize(mem, slots - {s});
      assert FrameOf(mem, s) !in Frames(mem, slots - {s});
      assert Frames(mem, slots) == Frames(mem, slots - {s}) + {FrameOf(mem, s)};
    }
  }

  ghost function UsedFrames(mem: Memory): set<nat> {
    set g: nat | g < |mem.free| && !mem.free[g]
  }

  lemma ResidentPagesFillUsedFrames(mem: Memory, live: set<nat>)
    requires Owned(mem, live)
    ensures |Resident(mem, live)| == |UsedFrames(mem)|
  {
    var used := UsedFrames(mem);
    var slots := Resident(mem, live);
    forall s | s in slots
      ensures FrameOf(mem, s) in used
    {
      assert Holds(mem, s.0, s.1, FrameOf(mem, s));
    }
    forall s, t | s in slots && t in slots && FrameOf(mem, s) == FrameOf(mem, t)
      ensures s == t
    {
      assert Holds(mem, s.0, s.1, FrameOf(mem, s)) && Holds(mem, t.0, t.1, FrameOf(mem, s));
    }
    forall g | g in used
      ensures exists s :: s in slots && FrameOf(mem, s) == g
    {
      var p: nat, i: nat :| p in live && Holds(mem, p, i, g);
      assert (p, i) in slots && FrameOf(mem, (p, i)) == g;
    }
    ImageHasSameSize(mem, slots);
    assert forall g :: g in used <==> g in Frames(mem, slots);
    assert used == Frames(mem, slots);
  }

  lemma FreeAndUsedPartition(mem: Memory)
    ensures |FreeFrames(mem)| + |UsedFrames(mem)| == |mem.free|
  {
    assert FreeFrames(mem) + UsedFrames(mem) == Range(|mem.free|);
    assert FreeFrames(mem) * UsedFrames(mem) == {};
  }

  /** Free frames and resident pages of live processes always add up to f. */
  lemma FramesAreConserved(mem: Memory, live: set<nat>)
    requires Owned(mem, live)
    ensures |FreeFrames(mem)| + |Resident(mem, live)| == |mem.free|
  {
    ResidentPagesFillUsedFrames(mem, live);
    FreeAndUsedPartition(mem);
  }

  /** When the last process has gone, every frame is free again. */
  lemma AllFreeAtTheEnd(mem: Memory)
    requires Owned(mem, {})
    ensures forall g :: 0 <= g < |mem.free| ==> mem.free[g]
  {
  }
}
