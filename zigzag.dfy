/** The zigzag scan of an N x N coefficient block (section A.3.6, Figure A.6 of ITU-T T.81):
    the anti-diagonals S = row + col are visited for S = 0 .. 2(N-1), even diagonals from the
    largest row downwards, odd diagonals from the smallest row upwards.

    The specification is `Zigzag(n)`, the concatenation of the diagonals; `Rank` is its closed-form
    inverse; `ZigzagOrder` is the imperative construction, proved equal to `Zigzag(n)`. */
module ZigzagScan {
  /** A block position (row, col), in the order the scan pushes it. */
  type Cell = (int, int)

  predicate InGrid(n: int, cell: Cell) {
    0 <= cell.0 < n && 0 <= cell.1 < n
  }

  function Min(a: int, b: int): int { if a < b then a else b }
  function Max(a: int, b: int): int { if a < b then b else a }

  /** Smallest and largest row on diagonal s of an n x n block. */
  function Lo(n: int, s: int): int { Max(0, s - n + 1) }
  function Hi(n: int, s: int): int { Min(s, n - 1) }

  /** Number of diagonals of an n x n block. */
  function NumDiagonals(n: nat): nat { if n == 0 then 0 else 2 * n - 1 }

  /** Number of cells on diagonal s (zero past the last diagonal). */
  function DiagLen(n: nat, s: nat): nat {
    if s < NumDiagonals(n) then Hi(n, s) - Lo(n, s) + 1 else 0
  }

  /** The m-th cell visited on diagonal s: even diagonals walk the row down from Hi,
      odd diagonals walk it up from Lo. */
  function DiagCell(n: nat, s: nat, m: int): Cell {
    if s % 2 == 0 then (Hi(n, s) - m, s - Hi(n, s) + m)
    else (Lo(n, s) + m, s - Lo(n, s) - m)
  }

  function Diagonal(n: nat, s: nat): seq<Cell> {
    seq(DiagLen(n, s), m => DiagCell(n, s, m))
  }

  /** The scan of the first s diagonals. */
  function Scan(n: nat, s: nat): seq<Cell> {
    if s == 0 then [] else Scan(n, s - 1) + Diagonal(n, s - 1)
  }

  /** The whole zigzag order of an n x n block. */
  function Zigzag(n: nat): seq<Cell> {
    Scan(n, NumDiagonals(n))
  }

  /** Number of cells on the first s diagonals: the position where diagonal s starts. */
  function Offset(n: nat, s: nat): nat {
    if s == 0 then 0 else Offset(n, s - 1) + DiagLen(n, s - 1)
  }

  /** Position of a cell inside its own diagonal. */
  function DiagIndex(n: nat, cell: Cell): int {
    var s := cell.0 + cell.1;
    if s % 2 == 0 then Hi(n, s) - cell.0 else cell.0 - Lo(n, s)
  }

  /** Closed-form zigzag rank of a cell. */
  function Rank(n: nat, cell: Cell): int
    requires InGrid(n, cell)
  {
    Offset(n, cell.0 + cell.1) + DiagIndex(n, cell)
  }

  // ---------------------------------------------------------------------------------------------
  // Diagonals

  /** Diagonal s, for every s of the block, holds min(s, 2(n-1) - s) + 1 cells. */
  lemma DiagLenFormula(n: nat, s: nat)
    requires s < NumDiagonals(n)
    ensures DiagLen(n, s) == Min(s, 2 * (n - 1) - s) + 1
  {
  }

  /** The m-th cell of diagonal s lies in the block, on that diagonal, at diagonal position m. */
  lemma DiagCellFacts(n: nat, s: nat, m: int)
    requires 0 <= m < DiagLen(n, s)
    ensures InGrid(n, DiagCell(n, s, m))
    ensures DiagCell(n, s, m).0 + DiagCell(n, s, m).1 == s
    ensures DiagIndex(n, DiagCell(n, s, m)) == m
  {
  }

  /** A cell of the block sits on a diagonal of the block, at a position DiagCell maps back to it. */
  lemma DiagIndexFacts(n: nat, cell: Cell)
    requires InGrid(n, cell)
    ensures cell.0 + cell.1 < NumDiagonals(n)
    ensures 0 <= DiagIndex(n, cell) < DiagLen(n, cell.0 + cell.1)
    ensures DiagCell(n, cell.0 + cell.1, DiagIndex(n, cell)) == cell
  {
  }

  // ---------------------------------------------------------------------------------------------
  // Offsets

  lemma {:induction false} ScanLength(n: nat, s: nat)
    ensures |Scan(n, s)| == Offset(n, s)
  {
    if s > 0 {
      ScanLength(n, s - 1);
    }
  }

  /** Diagonal t ends no later than any later diagonal starts. */
  lemma {:induction false} OffsetMonotone(n: nat, t: nat, s: nat)
    requires t < s
    ensures Offset(n, t) + DiagLen(n, t) <= Offset(n, s)
  {
    if t < s - 1 {
      OffsetMonotone(n, t, s - 1);
    }
  }

  /** Offset in closed form, below and above the main anti-diagonal. */
  lemma {:induction false} OffsetClosedForm(n: nat, s: nat)
    requires s <= NumDiagonals(n)
    ensures s <= n ==> 2 * Offset(n, s) == s * (s + 1)
    ensures n <= s ==> 2 * Offset(n, s) == 2 * n * n - (2 * n - 1 - s) * (2 * n - s)
  {
    if s > 0 {
      OffsetClosedForm(n, s - 1);
      if s <= n {
        assert DiagLen(n, s - 1) == s;
        TriangleStep(s);
        if s == n {
          UpperStep(n, s);
        }
      } else {
        assert DiagLen(n, s - 1) == 2 * n - s;
        UpperStep(n, s);
      }
    }
  }

  lemma TriangleStep(s: int)
    ensures s * (s + 1) == (s - 1) * s + 2 * s
  {
  }

  lemma UpperStep(n: int, s: int)
    ensures (2 * n - s) * (2 * n - s + 1) - 2 * (2 * n - s) == (2 * n - 1 - s) * (2 * n - s)
    ensures 2 * n * n - (n - 1) * n == n * (n + 1)
  {
  }

  /** The scan of all diagonals has exactly n * n entries. */
  lemma ZigzagLength(n: nat)
    ensures |Zigzag(n)| == n * n
    ensures Offset(n, NumDiagonals(n)) == n * n
  {
    ScanLength(n, NumDiagonals(n));
    if n > 0 {
      OffsetClosedForm(n, NumDiagonals(n));
    }
  }

  // ---------------------------------------------------------------------------------------------
  // Indexing the scan

  /** Diagonal t of the scan is stored at positions Offset(n, t) .. Offset(n, t) + DiagLen(n, t). */
  lemma {:induction false} ScanAt(n: nat, s: nat, t: nat, m: int)
    requires t < s && 0 <= m < DiagLen(n, t)
    ensures Offset(n, t) + m < |Scan(n, s)|
    ensures Scan(n, s)[Offset(n, t) + m] == DiagCell(n, t, m)
  {
    var pre := Scan(n, s - 1);
    assert Scan(n, s) == pre + Diagonal(n, s - 1);
    ScanLength(n, s - 1);
    if t < s - 1 {
      ScanAt(n, s - 1, t, m);
      OffsetMonotone(n, t, s - 1);
      assert Offset(n, t) + m < |pre|;
    } else {
      assert Offset(n, t) + m == |pre| + m;
      assert Diagonal(n, t)[m] == DiagCell(n, t, m);
    }
  }

  /** A cell of the block at position m of diagonal s has rank Offset(n, s) + m. */
  lemma RankOfCell(n: nat, cell: Cell, s: nat, m: int)
    requires InGrid(n, cell) && cell.0 + cell.1 == s && DiagIndex(n, cell) == m
    ensures Rank(n, cell) == Offset(n, s) + m
  {
  }

  /** The diagonal among the first t whose run of positions contains position k. */
  function DiagonalAt(n: nat, t: nat, k: int): (r: nat)
    requires 0 <= k < Offset(n, t)
    ensures r < t && Offset(n, r) <= k < Offset(n, r) + DiagLen(n, r)
  {
    if k >= Offset(n, t - 1) then t - 1 else DiagonalAt(n, t - 1, k)
  }

  /** Every entry of the scan lies in the block, on an earlier diagonal, and has rank equal to its position. */
  lemma RankOfScan(n: nat, s: nat, k: int)
    requires 0 <= k < |Scan(n, s)|
    ensures InGrid(n, Scan(n, s)[k])
    ensures Scan(n, s)[k].0 + Scan(n, s)[k].1 < s
    ensures Rank(n, Scan(n, s)[k]) == k
  {
    ScanLength(n, s);
    var t := DiagonalAt(n, s, k);
    var m := k - Offset(n, t);
    ScanAt(n, s, t, m);
    DiagCellFacts(n, t, m);
    RankOfCell(n, DiagCell(n, t, m), t, m);
  }

  /** Rank maps every cell of the block to the position where the zigzag scan visits it. */
  lemma ZigzagAtRank(n: nat, cell: Cell)
    requires InGrid(n, cell)
    ensures |Zigzag(n)| == n * n
    ensures 0 <= Rank(n, cell) < n * n
    ensures Zigzag(n)[Rank(n, cell)] == cell
  {
    DiagIndexFacts(n, cell);
    ScanAt(n, NumDiagonals(n), cell.0 + cell.1, DiagIndex(n, cell));
    ZigzagLength(n);
  }

  /** The zigzag scan visits, at position k, a cell of the block whose rank is k. */
  lemma RankAtZigzag(n: nat, k: int)
    requires 0 <= k < n * n
    ensures |Zigzag(n)| == n * n
    ensures InGrid(n, Zigzag(n)[k])
    ensures Rank(n, Zigzag(n)[k]) == k
  {
    ZigzagLength(n);
    RankOfScan(n, NumDiagonals(n), k);
  }

  // ---------------------------------------------------------------------------------------------
  // Properties of the scan

  /** The zigzag scan is a permutation of the n x n grid: n * n entries, all inside the block,
      no two equal, and every cell of the block among them. */
  lemma ZigzagIsPermutation(n: nat)
    ensures |Zigzag(n)| == n * n
    ensures forall k :: 0 <= k < |Zigzag(n)| ==> InGrid(n, Zigzag(n)[k])
    ensures forall k1, k2 :: 0 <= k1 < k2 < |Zigzag(n)| ==> Zigzag(n)[k1] != Zigzag(n)[k2]
    ensures forall r, c :: 0 <= r < n && 0 <= c < n ==> (r, c) in Zigzag(n)
  {
    ZigzagLength(n);
    forall k | 0 <= k < |Zigzag(n)|
      ensures InGrid(n, Zigzag(n)[k]) && Rank(n, Zigzag(n)[k]) == k
    {
      RankAtZigzag(n, k);
    }
    forall r, c | 0 <= r < n && 0 <= c < n
      ensures (r, c) in Zigzag(n)
    {
      ZigzagAtRank(n, (r, c));
    }
  }

  /** A cell's rank falls inside the run of its own diagonal. */
  lemma RankInDiagonalRun(n: nat, cell: Cell)
    requires InGrid(n, cell)
    ensures Offset(n, cell.0 + cell.1) <= Rank(n, cell) < Offset(n, cell.0 + cell.1 + 1)
  {
    DiagIndexFacts(n, cell);
  }

  /** Ranks order cells by diagonal: a cell of a later diagonal never has a smaller rank. */
  lemma RankOrdersDiagonals(n: nat, c1: Cell, c2: Cell)
    requires InGrid(n, c1) && InGrid(n, c2) && Rank(n, c1) <= Rank(n, c2)
    ensures c1.0 + c1.1 <= c2.0 + c2.1
  {
    var s1, s2 := c1.0 + c1.1, c2.0 + c2.1;
    if s2 < s1 {
      RankInDiagonalRun(n, c1);
      RankInDiagonalRun(n, c2);
      OffsetMonotone(n, s2, s1);
      assert false;
    }
  }

  /** Along the scan, row + col never decreases. */
  lemma ZigzagDiagonalOrder(n: nat, k1: int, k2: int)
    requires 0 <= k1 <= k2 < n * n
    ensures |Zigzag(n)| == n * n
    ensures Zigzag(n)[k1].0 + Zigzag(n)[k1].1 <= Zigzag(n)[k2].0 + Zigzag(n)[k2].1
  {
    RankAtZigzag(n, k1);
    RankAtZigzag(n, k2);
    RankOrdersDiagonals(n, Zigzag(n)[k1], Zigzag(n)[k2]);
  }

  /** A cell lies on diagonal s exactly when its rank falls in the run of diagonal s. */
  lemma RankInRunOf(n: nat, s: nat, cell: Cell)
    requires InGrid(n, cell)
    ensures cell.0 + cell.1 == s <==> Offset(n, s) <= Rank(n, cell) < Offset(n, s + 1)
  {
    RankInDiagonalRun(n, cell);
    var t := cell.0 + cell.1;
    if t < s {
      OffsetMonotone(n, t, s);
    } else if s < t {
      OffsetMonotone(n, s, t);
    }
  }

  /** Diagonal s occupies exactly the contiguous run of positions Offset(n, s) .. Offset(n, s + 1),
      of length min(s, 2(n-1) - s) + 1, and that run is Diagonal(n, s). */
  lemma ZigzagDiagonalRun(n: nat, s: nat, k: int)
    requires s < NumDiagonals(n) && 0 <= k < n * n
    ensures |Zigzag(n)| == n * n
    ensures Offset(n, s + 1) == Offset(n, s) + Min(s, 2 * (n - 1) - s) + 1
    ensures Zigzag(n)[k].0 + Zigzag(n)[k].1 == s <==> Offset(n, s) <= k < Offset(n, s + 1)
    ensures Offset(n, s) <= k < Offset(n, s + 1) ==> Zigzag(n)[k] == Diagonal(n, s)[k - Offset(n, s)]
  {
    DiagLenFormula(n, s);
    RankAtZigzag(n, k);
    RankInRunOf(n, s, Zigzag(n)[k]);
    if Offset(n, s) <= k < Offset(n, s + 1) {
      ScanAt(n, NumDiagonals(n), s, k - Offset(n, s));
    }
  }

  /** Within diagonal s, the row walks down by one from min(s, n-1) on even s,
      and up by one from s - min(s, n-1) on odd s. */
  lemma ZigzagDiagonalDirection(n: nat, s: nat, m: int)
    requires s < NumDiagonals(n) && 0 <= m < DiagLen(n, s)
    ensures |Zigzag(n)| == n * n
    ensures Offset(n, s) + m < n * n
    ensures s % 2 == 0 ==> Zigzag(n)[Offset(n, s) + m].0 == Min(s, n - 1) - m
    ensures s % 2 == 1 ==> Zigzag(n)[Offset(n, s) + m].0 == s - Min(s, n - 1) + m
  {
    ScanAt(n, NumDiagonals(n), s, m);
    ZigzagLength(n);
  }

  /** The scan starts at (0, 0) and ends at (n-1, n-1). */
  lemma ZigzagEnds(n: nat)
    requires n >= 1
    ensures |Zigzag(n)| == n * n
    ensures Zigzag(n)[0] == (0, 0)
    ensures Zigzag(n)[n * n - 1] == (n - 1, n - 1)
  {
    ZigzagAtRank(n, (0, 0));
    ZigzagAtRank(n, (n - 1, n - 1));
    OffsetClosedForm(n, 2 * n - 2);
    if n >= 2 {
      LastOffset(n);
    }
    assert Rank(n, (n - 1, n - 1)) == n * n - 1;
  }

  lemma LastOffset(n: int)
    requires n >= 2
    ensures 2 * n * n - (2 * n - 1 - (2 * n - 2)) * (2 * n - (2 * n - 2)) == 2 * (n * n - 1)
  {
  }

  /** After (0, 0) the scan continues (0,1), (1,0), (2,0), (1,1), (0,2), as in Figure A.6 of ITU-T T.81. */
  lemma ZigzagOpening(n: nat)
    requires n >= 2
    ensures |Zigzag(n)| == n * n
    ensures Zigzag(n)[1] == (0, 1) && Zigzag(n)[2] == (1, 0)
    ensures n >= 3 ==> Zigzag(n)[3] == (2, 0) && Zigzag(n)[4] == (1, 1) && Zigzag(n)[5] == (0, 2)
  {
    ZigzagLength(n);
    assert Offset(n, 1) == 1;
    assert Lo(n, 1) == 0 && Hi(n, 1) == 1;
    assert DiagLen(n, 1) == 2;
    ScanAt(n, NumDiagonals(n), 1, 0);
    ScanAt(n, NumDiagonals(n), 1, 1);
    if n >= 3 {
      assert Offset(n, 2) == 3;
      assert Lo(n, 2) == 0 && Hi(n, 2) == 2;
      assert DiagLen(n, 2) == 3;
      ScanAt(n, NumDiagonals(n), 2, 0);
      ScanAt(n, NumDiagonals(n), 2, 1);
      ScanAt(n, NumDiagonals(n), 2, 2);
    }
  }

  // ---------------------------------------------------------------------------------------------
  // The imperative construction

  /** Builds the zigzag order the way the demo does: one pass per diagonal, pushing cells while
      the walking row and column stay inside the block. */
  method ZigzagOrder(n: nat) returns (zigzag: seq<Cell>)
    ensures zigzag == Zigzag(n)
    ensures |zigzag| == n * n
    ensures forall k :: 0 <= k < |zigzag| ==> InGrid(n, zigzag[k]) && Rank(n, zigzag[k]) == k
  {
    zigzag := [];
    var s := 0;
    while s <= 2 * (n - 1)
      invariant 0 <= s <= NumDiagonals(n)
      invariant zigzag == Scan(n, s)
    {
      zigzag := PushDiagonal(n, s, zigzag);
      s := s + 1;
    }
    ZigzagLength(n);
    forall k | 0 <= k < |zigzag|
      ensures InGrid(n, zigzag[k]) && Rank(n, zigzag[k]) == k
    {
      RankAtZigzag(n, k);
    }
  }

  /** One pass of the outer loop: pushes the cells of diagonal s, walking the row down from
      min(s, n-1) on even s and the column down from min(s, n-1) on odd s, while both coordinates
      stay inside the block. */
  method PushDiagonal(n: nat, s: nat, zigzag: seq<Cell>) returns (extended: seq<Cell>)
    requires s < NumDiagonals(n)
    ensures extended == zigzag + Diagonal(n, s)
  {
    extended := zigzag;
    if s % 2 == 0 {
      var j := Min(s, n - 1);
      var i := s - j;
      while j >= 0 && i < n
        invariant Lo(n, s) - 1 <= j <= Hi(n, s) && i == s - j
        invariant extended == zigzag + Diagonal(n, s)[..Hi(n, s) - j]
        decreases j + 1
      {
        assert Diagonal(n, s)[..Hi(n, s) - j + 1]
            == Diagonal(n, s)[..Hi(n, s) - j] + [(j, i)];
        extended := extended + [(j, i)];
        j, i := j - 1, i + 1;
      }
      assert Diagonal(n, s)[..Hi(n, s) - j] == Diagonal(n, s);
    } else {
      var i := Min(s, n - 1);
      var j := s - i;
      while i >= 0 && j < n
        invariant Lo(n, s) - 1 <= i <= Hi(n, s) && j == s - i
        invariant extended == zigzag + Diagonal(n, s)[..Hi(n, s) - i]
        decreases i + 1
      {
        assert Diagonal(n, s)[..Hi(n, s) - i + 1]
            == Diagonal(n, s)[..Hi(n, s) - i] + [(j, i)];
        extended := extended + [(j, i)];
        i, j := i - 1, j + 1;
      }
      assert Diagonal(n, s)[..Hi(n, s) - i] == Diagonal(n, s);
    }
  }
}
