/**
 One process's page-table row and the LRU stack hidden in it.

 The MMU keeps no list: every valid entry carries a `lastUsedAt` number, and each
 request bumps or resets these numbers in place.  `Represents` says that the numbers
 of a row are exactly the positions in an LRU stack, and the lemmas say which stack
 operation each in-place update performs.
 */
module PageTable {

  datatype Entry = Entry(frame: int, valid: bool, lastUsedAt: int)

  const BLANK: Entry := Entry(-1, false, -1)

  type Row = seq<Entry>

  /** The `lastUsedAt` numbers of the valid entries are the positions in `lru`, newest first. */
  ghost predicate Represents(row: Row, lru: seq<nat>) {
    && (forall j :: 0 <= j < |lru| ==> lru[j] < |row| && row[lru[j]].valid && row[lru[j]].lastUsedAt == j)
    && (forall i :: 0 <= i < |row| && row[i].valid ==>
          0 <= row[i].lastUsedAt < |lru| && lru[row[i].lastUsedAt] == i)
  }

  /** A row names its stack uniquely. */
  lemma StackIsUnique(row: Row, a: seq<nat>, b: seq<nat>)
    requires Represents(row, a) && Represents(row, b)
    ensures a == b
  {
    PositionsAgree(row, a, b);
    PositionsAgree(row, b, a);
  }

  lemma PositionsAgree(row: Row, a: seq<nat>, b: seq<nat>)
    requires Represents(row, a) && Represents(row, b)
    ensures |a| <= |b| && forall j :: 0 <= j < |a| ==> a[j] == b[j]
  {
    forall j | 0 <= j < |a|
      ensures j < |b| && a[j] == b[j]
    {
      assert row[a[j]].lastUsedAt == j;
    }
    if a != [] {
      assert row[a[|a| - 1]].lastUsedAt == |a| - 1;
    }
  }

  // ---------------------------------------------------------------- hit

  function Touch(row: Row, page: nat): (r: Row)
    requires page < |row|
    ensures |r| == |row|
  {
    seq(|row|, i requires 0 <= i < |row| =>
      if i == page then row[i].(lastUsedAt := 0)
      else if row[i].valid && row[i].lastUsedAt < row[page].lastUsedAt then
        row[i].(lastUsedAt := row[i].lastUsedAt + 1)
      else row[i])
  }

  ghost function MoveToFront(lru: seq<nat>, pos: nat): seq<nat>
    requires pos < |lru|
  {
    [lru[pos]] + lru[..pos] + lru[pos + 1..]
  }

  /** A hit is move-to-front; it moves no frame and changes no valid bit. */
  lemma TouchIsMoveToFront(row: Row, lru: seq<nat>, page: nat)
    requires Represents(row, lru) && page < |row| && row[page].valid
    ensures Represents(Touch(row, page), MoveToFront(lru, row[page].lastUsedAt))
    ensures forall i :: 0 <= i < |row| ==>
              Touch(row, page)[i].valid == row[i].valid && Touch(row, page)[i].frame == row[i].frame
  {
    var pos := row[page].lastUsedAt;
    var lru' := MoveToFront(lru, pos);
    var row' := Touch(row, page);
    forall j | 0 <= j < |lru'|
      ensures lru'[j] < |row'| && row'[lru'[j]].valid && row'[lru'[j]].lastUsedAt == j
    {
      if j == 0 {
        assert lru'[j] == page;
      } else if j <= pos {
        assert lru'[j] == lru[j - 1];
      } else {
        assert lru'[j] == lru[j];
      }
    }
  }

  // ---------------------------------------------------------------- free-frame fault

  /** Position of the first invalid entry, |row| when there is none. */
  function FirstInvalid(row: Row): (i: nat)
    ensures i <= |row|
    ensures forall j :: 0 <= j < i ==> row[j].valid
    ensures i < |row| ==> !row[i].valid
  {
    if row == [] || !row[0].valid then 0 else FirstInvalid(row[1..]) + 1
  }

  /** The entry made valid is the first invalid one, whatever page was asked for. */
  function Install(row: Row, frame: int): (r: Row)
    ensures |r| == |row|
  {
    var first := FirstInvalid(row);
    if first == |row| then row else InstallAt(row, frame, first)
  }

  function InstallAt(row: Row, frame: int, first: nat): (r: Row)
    ensures |r| == |row|
  {
    seq(|row|, i requires 0 <= i < |row| =>
      if i == first then Entry(frame, true, 0)
      else if row[i].valid then row[i].(lastUsedAt := row[i].lastUsedAt + 1)
      else row[i])
  }

  /** The entry made valid goes on top of the stack. */
  lemma InstallPrepends(row: Row, lru: seq<nat>, frame: int)
    requires Represents(row, lru) && FirstInvalid(row) < |row|
    ensures Represents(Install(row, frame), [FirstInvalid(row)] + lru)
  {
    InstallAtPrepends(row, lru, frame, FirstInvalid(row));
  }

  lemma InstallAtPrepends(row: Row, lru: seq<nat>, frame: int, first: nat)
    requires Represents(row, lru) && first < |row| && !row[first].valid
    ensures Represents(InstallAt(row, frame, first), [first] + lru)
  {
    var lru' := [first] + lru;
    var row' := InstallAt(row, frame, first);
    forall j | 0 <= j < |lru'|
      ensures lru'[j] < |row'| && row'[lru'[j]].valid && row'[lru'[j]].lastUsedAt == j
    {
      if j > 0 {
        assert lru'[j] == lru[j - 1];
      }
    }
  }

  // ---------------------------------------------------------------- replacement

  function StampAt(row: Row, v: int): int
    requires -1 <= v < |row|
  {
    if v == -1 then -1 else row[v].lastUsedAt
  }

  /** First entry with the greatest stamp among the first n, other than `page`; -1 when none qualifies. */
  function OldestBelow(row: Row, page: int, n: nat): (v: int)
    requires n <= |row|
    ensures -1 <= v < n
    ensures v >= 0 ==> v != page && row[v].valid && row[v].lastUsedAt > -1
    ensures forall i :: 0 <= i < n && i != page && row[i].valid ==> row[i].lastUsedAt <= StampAt(row, v)
  {
    if n == 0 then -1
    else
      var best := OldestBelow(row, page, n - 1);
      if n - 1 != page && row[n - 1].valid && row[n - 1].lastUsedAt > StampAt(row, best) then n - 1 else best
  }

  /** A page that is not in the row excludes nothing. */
  lemma {:induction false} OldestOfAll(row: Row, page: int, n: nat)
    requires n <= |row| && !(0 <= page < |row|)
    ensures OldestBelow(row, page, n) == OldestBelow(row, -1, n)
  {
    if n > 0 {
      OldestOfAll(row, page, n - 1);
    }
  }

  function Replace(row: Row, page: nat, victim: nat): (r: Row)
    requires page < |row| && victim < |row|
    ensures |r| == |row|
  {
    seq(|row|, i requires 0 <= i < |row| =>
      if i == victim then BLANK
      else if i == page then Entry(row[victim].frame, true, 0)
      else if row[i].valid then row[i].(lastUsedAt := row[i].lastUsedAt + 1)
      else row[i])
  }

  /** A victim always exists, it is the bottom of the stack, and its frame passes to the new page. */
  lemma ReplaceDropsLast(row: Row, lru: seq<nat>, page: nat)
    requires Represents(row, lru) && lru != []
    requires page < |row| && !row[page].valid
    ensures OldestBelow(row, page, |row|) == lru[|lru| - 1]
    ensures Represents(Replace(row, page, lru[|lru| - 1]), [page] + lru[..|lru| - 1])
    ensures Replace(row, page, lru[|lru| - 1])[page].frame == row[lru[|lru| - 1]].frame
  {
    var last := lru[|lru| - 1];
    var v := OldestBelow(row, page, |row|);
    assert row[last].valid && row[last].lastUsedAt == |lru| - 1;
    assert v >= 0 && row[v].lastUsedAt == |lru| - 1;
    assert v == lru[row[v].lastUsedAt];
    var lru' := [page] + lru[..|lru| - 1];
    var row' := Replace(row, page, last);
    forall j | 0 <= j < |lru'|
      ensures lru'[j] < |row'| && row'[lru'[j]].valid && row'[lru'[j]].lastUsedAt == j
    {
      if j > 0 {
        assert lru'[j] == lru[j - 1];
        assert row[lru[j - 1]].lastUsedAt == j - 1;
      }
    }
  }

  /** The layout the master gives a process with c frames, the first of them being frame `base`. */
  function MasterRow(m: nat, c: nat, base: int): (r: Row)
    ensures |r| == m
  {
    seq(m, i => if i < c then Entry(base + i, true, i) else BLANK)
  }

  ghost function Ascending(c: nat): (s: seq<nat>)
    ensures |s| == c
  {
    seq(c, i requires 0 <= i < c => i)
  }

  lemma MasterRowIsAscending(m: nat, c: nat, base: int)
    requires c <= m
    ensures Represents(MasterRow(m, c, base), Ascending(c))
  {
    assert forall j :: 0 <= j < c ==> Ascending(c)[j] == j;
  }
}
