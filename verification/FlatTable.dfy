/** The k page tables of m entries each, laid out one after another in a single array. */
module FlatTable {
  import opened PageTable

  lemma RowFits(m: nat, p: nat, k: nat)
    requires p < k
    ensures 0 <= m * p && m * p + m <= k * m
  {
    assert m * (p + 1) <= m * k;
  }

  lemma RowsAreDisjoint(m: nat, p: nat, q: nat)
    requires p != q
    ensures m * p + m <= m * q || m * q + m <= m * p
  {
    if p < q {
      assert m * (p + 1) <= m * q;
    } else {
      assert m * (q + 1) <= m * p;
    }
  }

  ghost function RowAt(flat: seq<Entry>, k: nat, m: nat, p: nat): (r: Row)
    requires |flat| == k * m && p < k
    ensures |r| == m
  {
    RowFits(m, p, k);
    flat[m * p..m * p + m]
  }

  ghost function Rows(flat: seq<Entry>, k: nat, m: nat): (r: seq<Row>)
    requires |flat| == k * m
    ensures |r| == k
    ensures forall p :: 0 <= p < k ==> r[p] == RowAt(flat, k, m, p)
  {
    seq(k, p requires 0 <= p < k => RowAt(flat, k, m, p))
  }

  /** The row and the place in it that index m * p + page of the table belongs to. */
  function RowOf(m: nat, p: nat, page: int): int
    requires m > 0
  {
    if 0 <= page < m then p else p + page / m
  }

  function PlaceOf(m: nat, page: int): (j: nat)
    requires m > 0
    ensures j < m
  {
    if 0 <= page < m then page else page % m
  }

  lemma Monotone(m: nat, a: int, b: int)
    ensures a <= b ==> m * a <= m * b
  {
  }

  /** A page number whose index lies inside the table names a cell: of the own row exactly when it is in range. */
  lemma CellOfPage(k: nat, m: nat, p: nat, page: int)
    requires m > 0 && p < k && 0 <= m * p + page < k * m
    ensures 0 <= RowOf(m, p, page) < k
    ensures m * p + page == m * RowOf(m, p, page) + PlaceOf(m, page)
    ensures RowOf(m, p, page) == p <==> 0 <= page < m
  {
    var q, j := RowOf(m, p, page), PlaceOf(m, page);
    assert page == m * (page / m) + page % m;
    assert m * p + m * (page / m) == m * (p + page / m);
    assert m * (q + 1) == m * q + m;
    Monotone(m, q + 1, 0);
    Monotone(m, k, q);
  }

  /** Writing only inside row p replaces that row of the table and no other. */
  lemma RowWritten(flat: seq<Entry>, flat': seq<Entry>, k: nat, m: nat, p: nat)
    requires |flat| == |flat'| == k * m && p < k
    requires 0 <= m * p && m * p + m <= k * m
    requires flat'[..m * p] == flat[..m * p] && flat'[m * p + m..] == flat[m * p + m..]
    ensures Rows(flat', k, m) == Rows(flat, k, m)[p := RowAt(flat', k, m, p)]
  {
    forall q: nat | q < k && q != p
      ensures RowAt(flat', k, m, q) == RowAt(flat, k, m, q)
    {
      RowsAreDisjoint(m, p, q);
      RowFits(m, q, k);
      if m * q + m <= m * p {
        assert flat[m * q..m * q + m] == flat[..m * p][m * q..m * q + m];
        assert flat'[m * q..m * q + m] == flat'[..m * p][m * q..m * q + m];
      } else {
        assert flat[m * q..m * q + m] == flat[m * p + m..][m * q - (m * p + m)..m * q - m * p];
        assert flat'[m * q..m * q + m] == flat'[m * p + m..][m * q - (m * p + m)..m * q - m * p];
      }
    }
  }
}
