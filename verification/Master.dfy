/** The master's initial layout: frames shared out in proportion to the pages required. */
module Master {
  import opened Counting
  import opened PageTable
  import opened FlatTable
  import opened Memory

  function Total(reqd: seq<nat>): nat {
    if reqd == [] then 0 else Total(reqd[..|reqd| - 1]) + reqd[|reqd| - 1]
  }

  lemma QuotientBound(x: nat, d: nat, n: nat)
    requires d > 0
    ensures (if n < x / d then n else x / d) * d <= x
    ensures (x / d + 1) * d > x
  {
    var q := x / d;
    var c := if n < q then n else q;
    assert x == q * d + x % d;
    assert (q + 1) * d == q * d + d;
    assert c * d + (q - c) * d == q * d;
    assert (q - c) * d >= 0;
  }

  /** Frames given to a process that requires n of `total` pages. */
  function Share(n: nat, f: nat, total: nat): (c: nat)
    requires total > 0
    ensures c <= n && c * total <= n * f
    ensures c == n || (c + 1) * total > n * f
  {
    var toAllocate := (n * f) / total;
    QuotientBound(n * f, total, n);
    if n < toAllocate then n else toAllocate
  }

  /** Number of the first frame of process i. */
  function Base(reqd: seq<nat>, f: nat, i: nat): nat
    requires i <= |reqd| && Total(reqd) > 0
  {
    if i == 0 then 0 else Base(reqd, f, i - 1) + Share(reqd[i - 1], f, Total(reqd))
  }

  lemma {:induction false} TotalOfPrefixIsSmaller(reqd: seq<nat>, i: nat)
    requires i <= |reqd|
    ensures Total(reqd[..i]) <= Total(reqd)
    decreases |reqd|
  {
    if i == |reqd| {
      assert reqd[..i] == reqd;
    } else {
      TotalOfPrefixIsSmaller(reqd[..|reqd| - 1], i);
      assert reqd[..|reqd| - 1][..i] == reqd[..i];
    }
  }

  lemma AddProportions(b: nat, share: nat, t: nat, p: nat, n: nat, f: nat)
    requires b * t <= p * f && share * t <= n * f
    ensures (b + share) * t <= (p + n) * f
  {
    assert (b + share) * t == b * t + share * t;
    assert (p + n) * f == p * f + n * f;
  }

  lemma {:induction false} BaseIsProportional(reqd: seq<nat>, f: nat, i: nat)
    requires i <= |reqd| && Total(reqd) > 0
    ensures Base(reqd, f, i) * Total(reqd) <= Total(reqd[..i]) * f
  {
    if i > 0 {
      BaseIsProportional(reqd, f, i - 1);
      assert reqd[..i][..i - 1] == reqd[..i - 1];
      AddProportions(Base(reqd, f, i - 1), Share(reqd[i - 1], f, Total(reqd)), Total(reqd),
                     Total(reqd[..i - 1]), reqd[i - 1], f);
    }
  }

  lemma PartOfWhole(b: nat, t: nat, p: nat, f: nat)
    requires b * t <= p * f && p <= t && t > 0
    ensures b <= f
  {
    assert p * f <= t * f;
    assert (b - f) * t == b * t - t * f;
  }

  /** Rounding each share down never needs more than f frames. */
  lemma SharesFit(reqd: seq<nat>, f: nat, i: nat)
    requires i <= |reqd| && Total(reqd) > 0
    ensures Base(reqd, f, i) <= f
  {
    BaseIsProportional(reqd, f, i);
    TotalOfPrefixIsSmaller(reqd, i);
    PartOfWhole(Base(reqd, f, i), Total(reqd), Total(reqd[..i]), f);
  }

  /** Process i's row as laid out by `LayOut`. */
  function InitialRow(reqd: seq<nat>, f: nat, m: nat, i: nat): Row
    requires i < |reqd| && Total(reqd) > 0
  {
    MasterRow(m, Share(reqd[i], f, Total(reqd)), Base(reqd, f, i))
  }

  ghost predicate Wanted(reqd: seq<nat>, m: nat) {
    forall i :: 0 <= i < |reqd| ==> 1 <= reqd[i] <= m
  }

  lemma TotalIsPositive(reqd: seq<nat>, m: nat)
    requires Wanted(reqd, m) && reqd != []
    ensures Total(reqd) > 0
  {
  }

  /** The memory the other programs start from. */
  ghost predicate Initial(mem: Memory, m: nat) {
    && Shaped(mem, |mem.rows|, m) && Wanted(mem.reqd, m)
    && (forall p :: 0 <= p < |mem.rows| ==>
          Total(mem.reqd) > 0 && mem.rows[p] == InitialRow(mem.reqd, |mem.free|, m, p))
    && (forall g :: 0 <= g < |mem.free| ==>
          mem.free[g] == (mem.reqd != [] ==> Total(mem.reqd) > 0 && g >= Base(mem.reqd, |mem.free|, |mem.reqd|)))
  }

  lemma {:induction false} BaseIsMonotone(reqd: seq<nat>, f: nat, i: nat, j: nat)
    requires i <= j <= |reqd| && Total(reqd) > 0
    ensures Base(reqd, f, i) <= Base(reqd, f, j)
    decreases j
  {
    if i < j {
      BaseIsMonotone(reqd, f, i, j - 1);
    }
  }

  lemma {:induction false} FrameHasOwner(reqd: seq<nat>, f: nat, i: nat, g: nat) returns (p: nat)
    requires i <= |reqd| && Total(reqd) > 0 && g < Base(reqd, f, i)
    ensures p < i && Base(reqd, f, p) <= g < Base(reqd, f, p + 1)
  {
    if g >= Base(reqd, f, i - 1) {
      p := i - 1;
    } else {
      p := FrameHasOwner(reqd, f, i - 1, g);
    }
  }

  lemma InitialHolds(mem: Memory, m: nat, p: nat, i: nat, g: int)
    requires Initial(mem, m) && p < |mem.rows|
    ensures Holds(mem, p, i, g) ==>
              g == Base(mem.reqd, |mem.free|, p) + i && g < Base(mem.reqd, |mem.free|, p + 1)
  {
  }

  lemma InitialNoneDangling(mem: Memory, m: nat)
    requires Initial(mem, m)
    ensures NoneDangling(mem, Range(|mem.rows|))
  {
    var f, k := |mem.free|, |mem.rows|;
    forall p, i, g | p in Range(k) && Holds(mem, p, i, g)
      ensures 0 <= g < f && !mem.free[g]
    {
      InitialHolds(mem, m, p, i, g);
      BaseIsMonotone(mem.reqd, f, p + 1, k);
      SharesFit(mem.reqd, f, k);
    }
  }

  lemma InitialNoneShared(mem: Memory, m: nat)
    requires Initial(mem, m)
    ensures NoneShared(mem, Range(|mem.rows|))
  {
    var f, k := |mem.free|, |mem.rows|;
    forall p, i, q, j, g | p in Range(k) && q in Range(k) && Holds(mem, p, i, g) && Holds(mem, q, j, g)
      ensures p == q && i == j
    {
      InitialHolds(mem, m, p, i, g);
      InitialHolds(mem, m, q, j, g);
      if p < q {
        BaseIsMonotone(mem.reqd, f, p + 1, q);
      } else if q < p {
        BaseIsMonotone(mem.reqd, f, q + 1, p);
      }
    }
  }

  lemma InitialNoneLost(mem: Memory, m: nat)
    requires Initial(mem, m)
    ensures NoneLost(mem, Range(|mem.rows|))
  {
    var f, k := |mem.free|, |mem.rows|;
    forall g | 0 <= g < f && !mem.free[g]
      ensures exists p: nat, i: nat :: p in Range(k) && Holds(mem, p, i, g)
    {
      var p := FrameHasOwner(mem.reqd, f, k, g);
      assert Holds(mem, p, g - Base(mem.reqd, f, p), g);
    }
  }

  /** The layout gives every used frame exactly one owner. */
  lemma InitialIsOwned(mem: Memory, m: nat)
    requires Initial(mem, m)
    ensures Owned(mem, Range(|mem.rows|))
  {
    var f := |mem.free|;
    forall p | p in Range(|mem.rows|)
      ensures IsLru(mem.rows[p]) && BlanksAreBlank(mem.rows[p])
    {
      MasterRowIsAscending(m, Share(mem.reqd[p], f, Total(mem.reqd)), Base(mem.reqd, f, p));
    }
    InitialNoneDangling(mem, m);
    InitialNoneShared(mem, m);
    InitialNoneLost(mem, m);
  }

  /** Every process gets exactly its share, frames are handed out in order, and the rest are free. */
  method LayOut(k: nat, m: nat, f: nat, reqd: seq<nat>, pageTables: array<Entry>, isFrameFree: array<bool>)
    requires |reqd| == k && Wanted(reqd, m)
    requires pageTables.Length == k * m && isFrameFree.Length == f
    modifies pageTables, isFrameFree
    ensures k > 0 ==> Total(reqd) > 0 && Base(reqd, f, k) <= f
    ensures Initial(Memory(Rows(pageTables[..], k, m), isFrameFree[..], reqd), m)
  {
    ClearTables(k, m, pageTables);
    var frameNumber := 0;
    var total := SumUp(reqd);
    if k > 0 {
      TotalIsPositive(reqd, m);
      SharesFit(reqd, f, k);
    }
    var i := 0;
    while i < k
      invariant 0 <= i <= k
      invariant frameNumber == if k == 0 then 0 else Base(reqd, f, i)
      invariant frameNumber <= f
      invariant forall g :: 0 <= g < frameNumber ==> !isFrameFree[g]
      invariant forall p :: 0 <= p < i ==> Rows(pageTables[..], k, m)[p] == InitialRow(reqd, f, m, p)
      invariant forall p :: i <= p < k ==> Rows(pageTables[..], k, m)[p] == MasterRow(m, 0, 0)
    {
      var toAllocate := (reqd[i] * f) / total;
      var quota := if reqd[i] < toAllocate then reqd[i] else toAllocate;
      SharesFit(reqd, f, i + 1);
      frameNumber := FillRow(k, m, f, i, quota, frameNumber, pageTables, isFrameFree);
      i := i + 1;
    }
    FreeRest(frameNumber, f, isFrameFree);
  }

  method FreeRest(frameNumber: nat, f: nat, isFrameFree: array<bool>)
    requires isFrameFree.Length == f && frameNumber <= f
    requires forall g :: 0 <= g < frameNumber ==> !isFrameFree[g]
    modifies isFrameFree
    ensures forall g :: 0 <= g < f ==> isFrameFree[g] == (g >= frameNumber)
  {
    var i := frameNumber;
    while i < f
      invariant frameNumber <= i <= f
      invariant forall g :: 0 <= g < i ==> isFrameFree[g] == (g >= frameNumber)
    {
      isFrameFree[i] := true;
      i := i + 1;
    }
  }

  method SumUp(reqd: seq<nat>) returns (total: nat)
    ensures total == Total(reqd)
  {
    total := 0;
    var i := 0;
    while i < |reqd|
      invariant 0 <= i <= |reqd| && total == Total(reqd[..i])
    {
      assert reqd[..i + 1][..i] == reqd[..i];
      total := total + reqd[i];
      i := i + 1;
    }
    assert reqd[..i] == reqd;
  }

  method ClearTables(k: nat, m: nat, pageTables: array<Entry>)
    requires pageTables.Length == k * m
    modifies pageTables
    ensures forall p :: 0 <= p < k ==> Rows(pageTables[..], k, m)[p] == MasterRow(m, 0, 0)
  {
    var i := 0;
    while i < k
      invariant 0 <= i <= k && 0 <= m * i <= k * m
      invariant forall x :: 0 <= x < m * i ==> pageTables[x] == BLANK
    {
      RowFits(m, i, k);
      var j := 0;
      while j < m
        invariant 0 <= j <= m
        invariant forall x :: 0 <= x < m * i + j ==> pageTables[x] == BLANK
      {
        pageTables[m * i + j] := BLANK;
        j := j + 1;
      }
      assert m * (i + 1) == m * i + m;
      i := i + 1;
    }
    assert m * i == k * m;
    forall p: nat | p < k
      ensures RowAt(pageTables[..], k, m, p) == MasterRow(m, 0, 0)
    {
      RowFits(m, p, k);
    }
  }

  /** The inner loop of the allocation: `quota` entries of row i, each with the next frame. */
  method FillRow(k: nat, m: nat, f: nat, i: nat, quota: nat, first: nat,
                 pageTables: array<Entry>, isFrameFree: array<bool>) returns (frameNumber: nat)
    requires i < k && quota <= m && first + quota <= f
    requires pageTables.Length == k * m && isFrameFree.Length == f
    requires Rows(pageTables[..], k, m)[i] == MasterRow(m, 0, 0)
    requires forall g :: 0 <= g < first ==> !isFrameFree[g]
    modifies pageTables, isFrameFree
    ensures frameNumber == first + quota
    ensures Rows(pageTables[..], k, m) == Rows(old(pageTables[..]), k, m)[i := MasterRow(m, quota, first)]
    ensures forall g :: 0 <= g < frameNumber ==> !isFrameFree[g]
  {
    RowFits(m, i, k);
    frameNumber := first;
    var lu := 0;
    var j := 0;
    ghost var base := m * i;
    assert MasterRow(m, 0, 0) == MasterRow(m, 0, first);
    while frameNumber < f && j < quota
      invariant 0 <= j <= quota && lu == j && frameNumber == first + j
      invariant pageTables[base..base + m] == MasterRow(m, j, first)
      invariant pageTables[..base] == old(pageTables[..base])
      invariant pageTables[base + m..] == old(pageTables[base + m..])
      invariant forall g :: 0 <= g < frameNumber ==> !isFrameFree[g]
    {
      pageTables[m * i + j] := Entry(frameNumber, true, lu);
      assert MasterRow(m, j + 1, first) == MasterRow(m, j, first)[j := Entry(frameNumber, true, lu)];
      lu := lu + 1;
      isFrameFree[frameNumber] := false;
      frameNumber := frameNumber + 1;
      j := j + 1;
    }
    RowWritten(old(pageTables[..]), pageTables[..], k, m, i);
  }
}
