/** The inverse of the zigzag list: `pairToSingle[row * N + col]` is the position at which the
    zigzag scan visits (row, col). The demo builds it by scattering each list position into a
    table of N * N slots. */
module ZigzagRank {
  import opened RowMajor
  import opened ZigzagScan

  /** Slot of a block position in a row-major table of width n. */
  function CellIndex(n: int, cell: Cell): (p: int)
    ensures InGrid(n, cell) ==> 0 <= p < n * n && p / n == cell.0 && p % n == cell.1
  {
    if InGrid(n, cell) then
      FlatInRange(n, n, cell.0, cell.1);
      FlatParts(n, cell.0, cell.1);
      Flat(n, cell.0, cell.1)
    else
      Flat(n, cell.0, cell.1)
  }

  /** Closed-form rank of the cell stored at slot p of an n x n table. */
  function RankAt(n: nat, p: int): int
    requires 0 <= p < n * n
  {
    RowOfIndexInRange(n, n, p);
    Rank(n, (p / n, p % n))
  }

  /** Reference rank table: slot row * n + col holds the zigzag rank of (row, col). */
  function RankTable(n: nat): seq<int> {
    seq(n * n, p requires 0 <= p < n * n => RankAt(n, p))
  }

  /** The table entry of a cell is its closed-form rank. */
  lemma RankTableAt(n: nat, cell: Cell)
    requires InGrid(n, cell)
    ensures |RankTable(n)| == n * n
    ensures 0 <= CellIndex(n, cell) < n * n
    ensures RankTable(n)[CellIndex(n, cell)] == Rank(n, cell)
  {
  }

  /** The rank table and the zigzag list are mutually inverse:
      pairToSingle[r * n + c] == k exactly when singleToPair[k] == (r, c). */
  lemma RankTableInverse(n: nat, cell: Cell, k: int)
    requires InGrid(n, cell) && 0 <= k < n * n
    ensures |RankTable(n)| == n * n && |Zigzag(n)| == n * n
    ensures 0 <= CellIndex(n, cell) < n * n
    ensures RankTable(n)[CellIndex(n, cell)] == k <==> Zigzag(n)[k] == cell
  {
    RankTableAt(n, cell);
    ZigzagAtRank(n, cell);
    RankAtZigzag(n, k);
  }

  /** Slot p holds a rank in 0 .. n*n - 1, and the zigzag list visits slot p's cell at that rank. */
  lemma RankTableEntry(n: nat, p: int)
    requires 0 <= p < n * n
    ensures |RankTable(n)| == n * n && |Zigzag(n)| == n * n
    ensures 0 <= RankTable(n)[p] < n * n
    ensures Zigzag(n)[RankTable(n)[p]] == (p / n, p % n)
    ensures CellIndex(n, (p / n, p % n)) == p
  {
    RowOfIndexInRange(n, n, p);
    FlatDecompose(n, p);
    ZigzagAtRank(n, (p / n, p % n));
  }

  /** The rank table is a permutation of 0 .. n*n - 1: every entry in range, no two equal,
      and every rank present. */
  lemma RankTableIsPermutation(n: nat)
    ensures |RankTable(n)| == n * n
    ensures forall p :: 0 <= p < n * n ==> 0 <= RankTable(n)[p] < n * n
    ensures forall p1, p2 :: 0 <= p1 < p2 < n * n ==> RankTable(n)[p1] != RankTable(n)[p2]
    ensures forall k :: 0 <= k < n * n ==> k in RankTable(n)
  {
    forall p | 0 <= p < n * n
      ensures 0 <= RankTable(n)[p] < n * n
    {
      RankTableEntry(n, p);
    }
    forall p1, p2 | 0 <= p1 < p2 < n * n
      ensures RankTable(n)[p1] != RankTable(n)[p2]
    {
      RankTableEntry(n, p1);
      RankTableEntry(n, p2);
    }
    forall k | 0 <= k < n * n
      ensures k in RankTable(n)
    {
      RankAtZigzag(n, k);
      RankTableAt(n, Zigzag(n)[k]);
    }
  }

  /** Builds pairToSingle as the demo does: for each list position k, store k at the slot of
      singleToPair[k]. */
  method PairToSingle(n: nat, singleToPair: seq<Cell>) returns (pairToSingle: seq<int>)
    requires singleToPair == Zigzag(n)
    ensures pairToSingle == RankTable(n)
  {
    ZigzagIsPermutation(n);
    // The source starts from an array of undefined entries; every slot is overwritten below.
    var m := new int[|singleToPair|];
    for k := 0 to |singleToPair|
      invariant forall t :: 0 <= t < k ==> m[CellIndex(n, singleToPair[t])] == t
    {
      forall t | 0 <= t < k
        ensures CellIndex(n, singleToPair[t]) != CellIndex(n, singleToPair[k])
      {
        assert singleToPair[t] != singleToPair[k];
      }
      m[CellIndex(n, singleToPair[k])] := k;
    }
    forall p | 0 <= p < n * n
      ensures m[p] == RankTable(n)[p]
    {
      RowOfIndexInRange(n, n, p);
      FlatDecompose(n, p);
      var cell := (p / n, p % n);
      ZigzagAtRank(n, cell);
      assert CellIndex(n, singleToPair[Rank(n, cell)]) == p;
    }
    pairToSingle := m[..];
  }
}
