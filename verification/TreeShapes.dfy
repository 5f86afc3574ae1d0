/**
 Which trees the generator can grow. A tree is given by `up`: node number c in the order of listing hangs
 on node number up[c], and up[0] is 0 for the root.
 */
module TreeShapes {

  /** How many children parent p gets for the random number r, when so many nodes are listed already. */
  function NewChildren(n: nat, listed: nat, p: nat, r: nat): (k: nat)
    requires listed < n
    ensures k <= 5 && k <= n - listed && (listed == p + 1 ==> k >= 1)
    ensures listed != p + 1 ==> k < 5 && k < n - listed
  {
    var remaining := n - listed;
    var bound := if remaining > 5 then 5 else remaining;
    if listed == p + 1 then 1 + r % bound else r % bound
  }

  ghost function Copies(p: nat, k: nat): (s: seq<nat>)
    ensures |s| == k && forall i :: 0 <= i < k ==> s[i] == p
  {
    seq(k, i => p)
  }

  /** Parent p gets its children, until all n nodes are listed. */
  ghost function Round(up: seq<nat>, n: nat, p: nat, r: nat): (up': seq<nat>)
    requires |up| <= n
    ensures |up| <= |up'| <= n
  {
    if |up| == n then up else up + Copies(p, NewChildren(n, |up|, p, r))
  }

  /** What hangs on what after q rounds, when round p draws the number choices(p). */
  ghost function Grow(n: nat, choices: nat -> nat, q: nat): (up: seq<nat>)
    requires n >= 1
    ensures 1 <= |up| <= n
  {
    if q == 0 then [0] else Round(Grow(n, choices, q - 1), n, q - 1, choices(q - 1))
  }

  // ------------------------------------------------------------ the shapes

  /** Every node hangs on an earlier one, and children are listed parent after parent. */
  ghost predicate Listed(up: seq<nat>) {
    && |up| >= 1 && up[0] == 0
    && (forall c :: 1 <= c < |up| ==> up[c] < c)
    && (forall c, d :: 0 <= c <= d < |up| ==> up[c] <= up[d])
  }

  /** Nobody has more than five children, and five only if nobody else was waiting for children at the time. */
  ghost predicate Narrow(up: seq<nat>) {
    forall c, d :: 1 <= c && c + 4 <= d < |up| && up[c] == up[d] ==> d == c + 4 && c == up[c] + 1
  }

  /** When the last parent got its children, nobody else was waiting. */
  ghost predicate LastIsAlone(up: seq<nat>) {
    |up| >= 2 ==> var q := up[|up| - 1]; q + 1 < |up| && up[q + 1] == q
  }

  // ------------------------------------------------------------ only these shapes grow

  /** After q rounds: the shape so far, with children of the first q nodes only. */
  ghost predicate GrownSoFar(up: seq<nat>, q: nat, n: nat) {
    && Listed(up) && Narrow(up) && (forall c :: 1 <= c < |up| ==> up[c] < q)
    && if |up| == n then LastIsAlone(up) else |up| > q
  }

  lemma RoundKeepsListed(up: seq<nat>, q: nat, n: nat, k: nat)
    requires GrownSoFar(up, q, n) && q < |up|
    ensures Listed(up + Copies(q, k))
  {
    var up' := up + Copies(q, k);
    forall c | 0 <= c < |up'|
      ensures up'[c] <= q && (c >= 1 ==> up'[c] < c)
    {
      assert c < |up| ==> up'[c] == up[c];
    }
  }

  lemma RoundKeepsNarrow(up: seq<nat>, q: nat, n: nat, k: nat)
    requires GrownSoFar(up, q, n) && k <= 5 && (k == 5 ==> |up| == q + 1)
    ensures Narrow(up + Copies(q, k))
  {
    var up' := up + Copies(q, k);
    forall c, d | 1 <= c && c + 4 <= d < |up'| && up'[c] == up'[d]
      ensures d == c + 4 && c == up'[c] + 1
    {
      assert d < |up| ==> up[c] == up[d];
      assert c < |up| ==> up[c] < q;
    }
  }

  lemma {:induction false} GrowsOnlyShapes(n: nat, choices: nat -> nat, q: nat)
    requires n >= 1
    ensures GrownSoFar(Grow(n, choices, q), q, n)
  {
    if q > 0 {
      GrowsOnlyShapes(n, choices, q - 1);
      NextRoundKeepsShape(Grow(n, choices, q - 1), n, q, choices(q - 1));
    } else {
      assert GrownSoFar([0], 0, n);
    }
  }

  lemma NextRoundKeepsShape(up: seq<nat>, n: nat, q: nat, r: nat)
    requires 0 < q && |up| <= n && GrownSoFar(up, q - 1, n)
    ensures GrownSoFar(Round(up, n, q - 1, r), q, n)
  {
    if |up| < n {
      RoundKeepsShape(up, q - 1, n, NewChildren(n, |up|, q - 1, r));
    }
  }

  lemma RoundKeepsShape(up: seq<nat>, q: nat, n: nat, k: nat)
    requires GrownSoFar(up, q, n) && |up| < n && |up| + k <= n
    requires k <= 5 && (|up| == q + 1 ==> k >= 1) && (|up| != q + 1 ==> k < 5 && |up| + k < n)
    ensures GrownSoFar(up + Copies(q, k), q + 1, n)
  {
    RoundKeepsListed(up, q, n, k);
    RoundKeepsNarrow(up, q, n, k);
    LastRoundIsAlone(up, q, n, k);
    var up' := up + Copies(q, k);
    assert forall c :: 1 <= c < |up'| ==> up'[c] == (if c < |up| then up[c] else q);
  }

  lemma LastRoundIsAlone(up: seq<nat>, q: nat, n: nat, k: nat)
    requires |up| == q + 1 || |up| + k < n
    ensures |up + Copies(q, k)| == n && k >= 1 ==> LastIsAlone(up + Copies(q, k))
  {
  }

  // ------------------------------------------------------------ all of them do

  /** Number of nodes listed when the first q have got their children. */
  ghost function ListedBefore(up: seq<nat>, q: nat): (f: nat)
    requires Listed(up)
    ensures 1 <= f <= |up| && (q < |up| ==> f > q)
    ensures forall c :: 1 <= c < |up| ==> (c < f <==> up[c] < q)
  {
    assert 1 <= q < |up| ==> up[q] < q;
    CountBelow(up, q, |up|)
  }

  ghost function CountBelow(up: seq<nat>, q: nat, m: nat): (f: nat)
    requires Listed(up) && 1 <= m <= |up|
    requires forall c :: m <= c < |up| ==> up[c] >= q
    ensures 1 <= f <= m
    ensures forall c :: 1 <= c < |up| ==> (c < f <==> up[c] < q)
  {
    if m > 1 && up[m - 1] >= q then CountBelow(up, q, m - 1) else m
  }

  /** The draw that gives node p the children it has. */
  ghost function ChoiceFor(up: seq<nat>, p: nat): nat
    requires Listed(up)
  {
    var k := ListedBefore(up, p + 1) - ListedBefore(up, p);
    if ListedBefore(up, p) == p + 1 && k > 0 then k - 1 else if k >= 0 then k else 0
  }

  lemma ChildrenOfNext(up: seq<nat>, p: nat)
    requires Listed(up)
    ensures var f, g := ListedBefore(up, p), ListedBefore(up, p + 1);
            f <= g && forall c :: f <= c < g ==> up[c] == p
  {
    var f, g := ListedBefore(up, p), ListedBefore(up, p + 1);
    var c := if g < |up| then g else 0;
    assert c == 0 || (up[c] < p + 1 <==> c < g);
  }

  /** A shape gives each parent as many children as one round can. */
  lemma AsManyAsOneRound(up: seq<nat>, p: nat)
    requires Listed(up) && Narrow(up) && LastIsAlone(up) && ListedBefore(up, p) < |up|
    ensures var f, g := ListedBefore(up, p), ListedBefore(up, p + 1);
            f <= g <= f + 5 && (f == p + 1 ==> f < g) && (f != p + 1 ==> g < f + 5 && g < |up|)
  {
    var f, g := ListedBefore(up, p), ListedBefore(up, p + 1);
    ChildrenOfNext(up, p);
    if g >= f + 5 {
      assert up[f] == up[g - 1] == p;
    }
    if f == p + 1 {
      assert up[f] < f;
    }
    if g == |up| {
      assert up[|up| - 1] < p + 1;
      assert f < g ==> up[|up| - 1] == p;
    }
  }

  lemma DrawnAsWanted(n: nat, listed: nat, p: nat, k: nat)
    requires listed < n && listed + k <= n && k <= 5
    requires listed == p + 1 ==> k > 0
    requires listed != p + 1 ==> k < 5 && listed + k < n
    ensures NewChildren(n, listed, p, if listed == p + 1 then k - 1 else k) == k
  {
    var remaining := n - listed;
    var bound := if remaining > 5 then 5 else remaining;
    SmallRemainder(if listed == p + 1 then k - 1 else k, bound);
  }

  lemma SmallRemainder(r: nat, bound: nat)
    requires r < bound
    ensures r % bound == r
  {
  }

  lemma {:induction false} AllShapesGrow(up: seq<nat>, choices: nat -> nat, q: nat)
    requires Listed(up) && Narrow(up) && LastIsAlone(up) && forall p :: choices(p) == ChoiceFor(up, p)
    ensures Grow(|up|, choices, q) == up[..ListedBefore(up, q)]
  {
    if q > 0 {
      AllShapesGrow(up, choices, q - 1);
      assert choices(q - 1) == ChoiceFor(up, q - 1);
      OneRoundMore(up, q, choices(q - 1), Grow(|up|, choices, q - 1));
    } else {
      NobodyYet(up);
    }
  }

  lemma NobodyYet(up: seq<nat>)
    requires Listed(up)
    ensures up[..ListedBefore(up, 0)] == [0]
  {
    assert |up| > 1 ==> (1 < ListedBefore(up, 0) <==> up[1] < 0);
  }

  lemma OneRoundMore(up: seq<nat>, q: nat, r: nat, front: seq<nat>)
    requires Listed(up) && Narrow(up) && LastIsAlone(up) && q > 0 && r == ChoiceFor(up, q - 1)
    requires front == up[..ListedBefore(up, q - 1)]
    ensures Round(front, |up|, q - 1, r) == up[..ListedBefore(up, q)]
  {
    var p := q - 1;
    var f, g := ListedBefore(up, p), ListedBefore(up, p + 1);
    ChildrenOfNext(up, p);
    if f < |up| {
      AsManyAsOneRound(up, p);
      DrawnAsWanted(|up|, f, p, g - f);
      ThenCopies(up, f, g, p);
    }
  }

  lemma ThenCopies(up: seq<nat>, f: nat, g: nat, p: nat)
    requires f <= g <= |up| && forall c :: f <= c < g ==> up[c] == p
    ensures up[..f] + Copies(p, g - f) == up[..g]
  {
  }

  /** The trees that can be grown are exactly those of this shape. */
  lemma ExactlyTheseTreesGrow(up: seq<nat>)
    requires |up| >= 1
    ensures Listed(up) && Narrow(up) && LastIsAlone(up) <==>
              exists choices: nat -> nat, q: nat :: Grow(|up|, choices, q) == up
  {
    if Listed(up) && Narrow(up) && LastIsAlone(up) {
      var choices: nat -> nat := (p: nat) => ChoiceFor(up, p);
      AllShapesGrow(up, choices, |up|);
      assert ListedBefore(up, |up|) == |up| by {
        assert |up| > 1 ==> up[|up| - 1] < |up|;
      }
      assert Grow(|up|, choices, |up|) == up;
    }
    forall choices: nat -> nat, q: nat | Grow(|up|, choices, q) == up
      ensures Listed(up) && Narrow(up) && LastIsAlone(up)
    {
      GrowsOnlyShapes(|up|, choices, q);
    }
  }
  /** For one, a fourth node never hangs on the first of the root's two children. */
  lemma SomeTreeNeverGrows(choices: nat -> nat, q: nat)
    ensures Listed([0, 0, 0, 1]) && Grow(4, choices, q) != [0, 0, 0, 1]
  {
    var up := [0, 0, 0, 1];
    assert up[up[|up| - 1] + 1] == 0;
    ExactlyTheseTreesGrow(up);
  }
}
