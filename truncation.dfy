/** Coefficient truncation: after the forward transform of a block, the coefficient at (i, j)
    is kept when its zigzag rank, read from pairToSingle, is below the chosen coefficient count,
    and replaced by 0 otherwise. The coefficient values themselves are opaque reals. */
module Truncation {
  import opened RowMajor
  import opened ZigzagScan
  import opened ZigzagRank

  /** A block as nested rows, like the demo's two-dimensional matrices. */
  type Matrix<T> = seq<seq<T>>

  predicate IsSquare<T>(m: Matrix<T>, n: int) {
    |m| == n && forall i :: 0 <= i < n ==> |m[i]| == n
  }

  /** Whether position (i, j) survives: the rank stored at slot i * n + j is below `keep`.
      A slot outside the table reads as undefined, which never compares below anything. */
  predicate Kept(n: int, pairToSingle: seq<int>, keep: int, i: int, j: int) {
    0 <= Flat(n, i, j) < |pairToSingle| && pairToSingle[Flat(n, i, j)] < keep
  }

  /** The demo's element-wise map over a transformed block. */
  function Truncate(n: int, pairToSingle: seq<int>, keep: int, block: Matrix<real>): (t: Matrix<real>)
    ensures |t| == |block| && forall i :: 0 <= i < |t| ==> |t[i]| == |block[i]|
    ensures forall i, j :: 0 <= i < |t| && 0 <= j < |t[i]| ==> t[i][j] == block[i][j] || t[i][j] == 0.0
  {
    seq(|block|, i requires 0 <= i < |block| =>
      seq(|block[i]|, j requires 0 <= j < |block[i]| =>
        if Kept(n, pairToSingle, keep, i, j) then block[i][j] else 0.0))
  }

  /** `keep` clipped to the number of positions of an n x n block. */
  function Clip(keep: int, n: nat): nat {
    if keep <= 0 then 0 else if keep >= n * n then n * n else keep
  }

  /** The positions of an n x n block that survive truncation with the demo's rank table. */
  function KeptCells(n: nat, keep: int): set<Cell> {
    set i, j | 0 <= i < n && 0 <= j < n && Kept(n, RankTable(n), keep, i, j) :: (i, j)
  }

  /** With the demo's rank table, a position survives exactly when its zigzag rank is below `keep`. */
  lemma KeptByRank(n: nat, keep: int, i: int, j: int)
    requires 0 <= i < n && 0 <= j < n
    ensures Kept(n, RankTable(n), keep, i, j) <==> Rank(n, (i, j)) < keep
  {
    RankTableAt(n, (i, j));
  }

  /** Truncation keeps entry (i, j) of an n x n block when its zigzag rank is below `keep`
      and zeroes it otherwise. */
  lemma TruncateByRank(n: nat, keep: int, block: Matrix<real>, i: int, j: int)
    requires IsSquare(block, n) && 0 <= i < n && 0 <= j < n
    ensures Truncate(n, RankTable(n), keep, block)[i][j]
         == if Rank(n, (i, j)) < keep then block[i][j] else 0.0
  {
    KeptByRank(n, keep, i, j);
  }

  /** Keeping n * n or more coefficients leaves the block unchanged. */
  lemma TruncateKeepAll(n: nat, keep: int, block: Matrix<real>)
    requires IsSquare(block, n) && keep >= n * n
    ensures Truncate(n, RankTable(n), keep, block) == block
  {
    var t := Truncate(n, RankTable(n), keep, block);
    forall i | 0 <= i < n
      ensures t[i] == block[i]
    {
      forall j | 0 <= j < n
        ensures t[i][j] == block[i][j]
      {
        KeptByRank(n, keep, i, j);
        ZigzagAtRank(n, (i, j));
      }
    }
  }

  /** Keeping no coefficient zeroes the whole block. */
  lemma TruncateKeepNone(n: nat, keep: int, block: Matrix<real>)
    requires IsSquare(block, n) && keep <= 0
    ensures forall i, j :: 0 <= i < n && 0 <= j < n ==> Truncate(n, RankTable(n), keep, block)[i][j] == 0.0
  {
    forall i, j | 0 <= i < n && 0 <= j < n
      ensures Truncate(n, RankTable(n), keep, block)[i][j] == 0.0
    {
      KeptByRank(n, keep, i, j);
      ZigzagAtRank(n, (i, j));
    }
  }

  /** Truncating twice keeps what the smaller count keeps. */
  lemma TruncateTwice(n: nat, pairToSingle: seq<int>, keep1: int, keep2: int, block: Matrix<real>)
    ensures Truncate(n, pairToSingle, keep1, Truncate(n, pairToSingle, keep2, block))
         == Truncate(n, pairToSingle, if keep1 < keep2 then keep1 else keep2, block)
  {
    var lhs := Truncate(n, pairToSingle, keep1, Truncate(n, pairToSingle, keep2, block));
    var rhs := Truncate(n, pairToSingle, if keep1 < keep2 then keep1 else keep2, block);
    assert |lhs| == |rhs|;
    forall i | 0 <= i < |lhs|
      ensures lhs[i] == rhs[i]
    {
    }
  }

  /** A larger count keeps every position a smaller count keeps. */
  lemma KeptMonotone(n: nat, keep1: int, keep2: int)
    requires keep1 <= keep2
    ensures KeptCells(n, keep1) <= KeptCells(n, keep2)
  {
  }

  /** The surviving positions are exactly the first Clip(keep, n) cells of the zigzag scan. */
  lemma KeptIsZigzagPrefix(n: nat, keep: int)
    ensures |Zigzag(n)| == n * n
    ensures KeptCells(n, keep) == set x | x in Zigzag(n)[..Clip(keep, n)]
  {
    ZigzagLength(n);
    var c := Clip(keep, n);
    var prefix := set x | x in Zigzag(n)[..c];
    forall x | x in KeptCells(n, keep)
      ensures x in prefix
    {
      KeptByRank(n, keep, x.0, x.1);
      ZigzagAtRank(n, x);
      assert Zigzag(n)[..c][Rank(n, x)] == x;
    }
    forall x | x in prefix
      ensures x in KeptCells(n, keep)
    {
      var k :| 0 <= k < c && Zigzag(n)[..c][k] == x;
      RankAtZigzag(n, k);
      KeptByRank(n, keep, x.0, x.1);
    }
  }

  /** Exactly min(max(keep, 0), n * n) positions survive truncation. */
  lemma KeptCount(n: nat, keep: int)
    ensures |KeptCells(n, keep)| == Clip(keep, n)
  {
    KeptIsZigzagPrefix(n, keep);
    ZigzagIsPermutation(n);
    var c := Clip(keep, n);
    DistinctElementsCard(Zigzag(n)[..c]);
  }

  /** A sequence without repeated elements has as many distinct elements as entries. */
  lemma {:induction false} DistinctElementsCard<T>(s: seq<T>)
    requires forall i, j :: 0 <= i < j < |s| ==> s[i] != s[j]
    ensures |set x | x in s| == |s|
  {
    if s != [] {
      var init := s[..|s| - 1];
      DistinctElementsCard(init);
      assert (set x | x in s) == (set x | x in init) + {s[|s| - 1]};
      assert s[|s| - 1] !in (set x | x in init);
    }
  }
}
