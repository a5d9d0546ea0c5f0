/**
 * NeedlemanWunschUtil: the distance by a two-dimensional matrix, the same
 * distance by a flat buffer of (m + 1) * (n + 1) cells addressed row-major,
 * and the similarity percentage over either.
 *
 * The flat-buffer engine distributes its rows over Parallel.For in the
 * source; here its rows run one after the other, in order, which is the
 * result that engine is documented to give.
 */
module NeedlemanWunschUtil {
  import opened Levenshtein
  import opened Similarity

  method CalculateSimilarityPercentage(s1: seq<char>, s2: seq<char>, parallel: bool := false) returns (p: real)
    ensures p == SimilarityPercentage(s1, s2)
    ensures 0.0 <= p <= 100.0
    ensures p == 100.0 <==> s1 == s2
  {
    SimilarityInRange(s1, s2);
    if s1 == s2 {
      return 100.0;
    }
    var similarityScore: int;
    if parallel {
      similarityScore := CalculateSimilarityInParallel(s1, s2);
    } else {
      similarityScore := CalculateSimilarity(s1, s2);
    }
    var maxPossibleScore := Max(|s1|, |s2|) as real;
    p := (1.0 - similarityScore as real / maxPossibleScore) * 100.0;
  }

  /** The two engines compute the same score for every pair of strings. */
  method EnginesAgree(s1: seq<char>, s2: seq<char>) returns (sequential: int, flat: int)
    ensures sequential == flat
    ensures sequential == EditDistance(s1, s2)
  {
    sequential := CalculateSimilarity(s1, s2);
    flat := CalculateSimilarityInParallel(s1, s2);
  }

  /** Fills the (m + 1) x (n + 1) matrix row by row and reads its last cell. */
  method CalculateSimilarity(s1: seq<char>, s2: seq<char>) returns (score: int)
    ensures score == EditDistance(s1, s2)
  {
    var m, n := |s1|, |s2|;
    var matrix := new int[m + 1, n + 1];

    // Column 0: matrix[i, 0] = i
    for i := 0 to m + 1
      invariant forall r :: 0 <= r < i ==> matrix[r, 0] == r
    {
      matrix[i, 0] := i;
    }

    // Row 0: matrix[0, j] = j
    for j := 1 to n + 1
      invariant forall r :: 0 <= r <= m ==> matrix[r, 0] == r
      invariant forall c :: 1 <= c < j ==> matrix[0, c] == c
    {
      matrix[0, j] := j;
    }

    for i := 1 to m + 1
      invariant forall r, c {:trigger matrix[r, c]} :: 0 <= r < i && 0 <= c <= n ==> matrix[r, c] == Dist(s1, s2, r, c)
      invariant forall r :: i <= r <= m ==> matrix[r, 0] == r
    {
      for j := 1 to n + 1
        invariant forall r, c {:trigger matrix[r, c]} :: 0 <= r < i && 0 <= c <= n ==> matrix[r, c] == Dist(s1, s2, r, c)
        invariant forall c {:trigger matrix[i, c]} :: 0 <= c < j ==> matrix[i, c] == Dist(s1, s2, i, c)
        invariant forall r :: i < r <= m ==> matrix[r, 0] == r
      {
        var cost := if s1[i - 1] == s2[j - 1] then 0 else 1;

        var deletion := matrix[i - 1, j] + 1;
        var insertion := matrix[i, j - 1] + 1;
        var substitution := matrix[i - 1, j - 1] + cost;

        matrix[i, j] := Min(Min(deletion, insertion), substitution);
        assert matrix[i, j] == Dist(s1, s2, i, j);
      }
    }

    score := matrix[m, n];
  }

  /** Where cell (i, j) of a matrix with n + 1 columns lives in the flat buffer. */
  function FlatIndex(n: nat, i: nat, j: nat): nat {
    i * (n + 1) + j
  }

  /**
   * Row-major addressing is a bijection between the cells of an
   * (m + 1) x (n + 1) matrix and the indices of a buffer of (m + 1) * (n + 1):
   * every cell lands inside the buffer, and the row and column come back by
   * division and remainder.
   */
  lemma FlatIndexInBounds(m: nat, n: nat, i: nat, j: nat)
    requires i <= m && j <= n
    ensures FlatIndex(n, i, j) < (m + 1) * (n + 1)
    ensures FlatIndex(n, i, j) / (n + 1) == i && FlatIndex(n, i, j) % (n + 1) == j
  {
    calc {
      FlatIndex(n, i, j);
      <= i * (n + 1) + n;
      <  (i + 1) * (n + 1);
      <= { MulMonotone(i + 1, m + 1, n + 1); } (m + 1) * (n + 1);
    }
    DivModUnique(i * (n + 1) + j, n + 1, i, j);
  }

  /** Every index of the buffer is the flat index of a cell. */
  lemma FlatIndexCovers(m: nat, n: nat, k: nat)
    requires k < (m + 1) * (n + 1)
    ensures k / (n + 1) <= m && FlatIndex(n, k / (n + 1), k % (n + 1)) == k
  {
    if k / (n + 1) > m {
      MulMonotone(m + 1, k / (n + 1), n + 1);
    }
  }

  lemma MulMonotone(x: nat, y: nat, z: nat)
    requires x <= y
    ensures x * z <= y * z
  {
  }

  lemma DivModUnique(k: int, d: int, q: int, r: int)
    requires d > 0 && 0 <= r < d && k == q * d + r
    ensures k / d == q && k % d == r
  {
    var q', r' := k / d, k % d;
    assert (q - q') * d == r' - r;
    if q - q' >= 1 {
      MulMonotone(1, q - q', d);
    } else if q' - q >= 1 {
      MulMonotone(1, q' - q, d);
    }
  }

  /** Cell k of a flat buffer holds the recurrence at its row and column. */
  ghost predicate CellDone(s1: seq<char>, s2: seq<char>, cells: seq<int>, k: int)
    requires 0 <= k < |cells|
  {
    var w := |s2| + 1;
    k / w <= |s1| && cells[k] == Dist(s1, s2, k / w, k % w)
  }

  /**
   * The buffer is done at every position before pos in row-major order and
   * in column 0 of every row.
   */
  ghost predicate FilledUpTo(s1: seq<char>, s2: seq<char>, cells: seq<int>, pos: int) {
    forall k {:trigger CellDone(s1, s2, cells, k)} ::
      0 <= k < |cells| && (k < pos || k % (|s2| + 1) == 0) ==> CellDone(s1, s2, cells, k)
  }

  /** Writing the recurrence's value at pos extends the done prefix by one. */
  lemma FilledExtend(s1: seq<char>, s2: seq<char>, cells: seq<int>, pos: nat, v: int)
    requires pos < |cells| && FilledUpTo(s1, s2, cells, pos)
    requires pos / (|s2| + 1) <= |s1| && v == Dist(s1, s2, pos / (|s2| + 1), pos % (|s2| + 1))
    ensures FilledUpTo(s1, s2, cells[pos := v], pos + 1)
  {
    var cells' := cells[pos := v];
    forall k | 0 <= k < |cells'| && (k < pos + 1 || k % (|s2| + 1) == 0)
      ensures CellDone(s1, s2, cells', k)
    {
      if k != pos {
        assert CellDone(s1, s2, cells, k);
      }
    }
  }

  /** Column 0 of rows 0 to i - 1 is written. */
  ghost predicate ColumnZeroUpTo(s1: seq<char>, s2: seq<char>, cells: seq<int>, i: int) {
    forall k {:trigger CellDone(s1, s2, cells, k)} ::
      0 <= k < |cells| && k % (|s2| + 1) == 0 && k < i * (|s2| + 1) ==> CellDone(s1, s2, cells, k)
  }

  /** Writing i at the head of row i extends column 0 by one row. */
  lemma ColumnZeroExtend(s1: seq<char>, s2: seq<char>, cells: seq<int>, i: nat)
    requires |cells| == (|s1| + 1) * (|s2| + 1) && i <= |s1|
    requires ColumnZeroUpTo(s1, s2, cells, i)
    ensures i * (|s2| + 1) < |cells|
    ensures ColumnZeroUpTo(s1, s2, cells[i * (|s2| + 1) := i], i + 1)
  {
    var m, n := |s1|, |s2|;
    FlatIndexInBounds(m, n, i, 0);
    var cells' := cells[i * (n + 1) := i];
    forall k | 0 <= k < |cells'| && k % (n + 1) == 0 && k < (i + 1) * (n + 1)
      ensures CellDone(s1, s2, cells', k)
    {
      if k != i * (n + 1) {
        var q := k / (n + 1);
        FlatIndexCovers(m, n, k);
        assert q * (n + 1) == k;
        if q > i {
          MulMonotone(i + 1, q, n + 1);
        }
        assert q != i;
        MulMonotone(q + 1, i, n + 1);
        FlatRowStep(n, q);
        assert k < i * (n + 1);
        assert CellDone(s1, s2, cells, k);
      }
    }
  }

  /** With column 0 of every row written, only row-major progress is left. */
  lemma ColumnZeroDone(s1: seq<char>, s2: seq<char>, cells: seq<int>)
    requires |cells| == (|s1| + 1) * (|s2| + 1)
    requires ColumnZeroUpTo(s1, s2, cells, |s1| + 1)
    ensures FilledUpTo(s1, s2, cells, 0)
  {
  }

  /** The same fill over a flat buffer, rows taken in increasing order. */
  method CalculateSimilarityInParallel(s1: seq<char>, s2: seq<char>) returns (score: int)
    ensures score == EditDistance(s1, s2)
  {
    var m, n := |s1|, |s2|;
    var matrix := new int[(m + 1) * (n + 1)];

    // Column 0 of every row: matrix[i * (n + 1)] = i
    for i := 0 to m + 1
      invariant ColumnZeroUpTo(s1, s2, matrix[..], i)
    {
      ghost var before := matrix[..];
      ColumnZeroExtend(s1, s2, before, i);
      matrix[i * (n + 1)] := i;
      assert matrix[..] == before[i * (n + 1) := i];
    }
    ColumnZeroDone(s1, s2, matrix[..]);

    // Row 0: matrix[j] = j
    for j := 1 to n + 1
      invariant FilledUpTo(s1, s2, matrix[..], j)
    {
      ghost var before := matrix[..];
      FlatIndexInBounds(m, n, 0, j);
      FilledExtend(s1, s2, before, j, j);
      matrix[j] := j;
      assert matrix[..] == before[j := j];
    }

    for i := 1 to m + 1
      invariant FilledUpTo(s1, s2, matrix[..], FlatIndex(n, i, 0))
    {
      FillRow(s1, s2, matrix, i);
    }

    FlatIndexInBounds(m, n, m, n);
    FlatRowStep(n, m);
    assert CellDone(s1, s2, matrix[..], FlatIndex(n, m, n));
    score := matrix[m * (n + 1) + n];
  }

  /**
   * The body run for row i: fills cells (i, 1) to (i, n) from left to right,
   * each from the row above and the cell to its left.
   */
  method FillRow(s1: seq<char>, s2: seq<char>, matrix: array<int>, i: nat)
    requires matrix.Length == (|s1| + 1) * (|s2| + 1) && 1 <= i <= |s1|
    requires FilledUpTo(s1, s2, matrix[..], FlatIndex(|s2|, i, 0))
    modifies matrix
    ensures FilledUpTo(s1, s2, matrix[..], FlatIndex(|s2|, i + 1, 0))
    ensures forall k :: 0 <= k < matrix.Length && !(FlatIndex(|s2|, i, 1) <= k < FlatIndex(|s2|, i + 1, 0)) ==>
      matrix[k] == old(matrix[k])
  {
    var m, n := |s1|, |s2|;
    FlatIndexInBounds(m, n, i, 0);
    for j := 1 to n + 1
      invariant FilledUpTo(s1, s2, matrix[..], FlatIndex(n, i, j))
      invariant forall k :: 0 <= k < matrix.Length && !(FlatIndex(n, i, 1) <= k < FlatIndex(n, i, j)) ==>
        matrix[k] == old(matrix[k])
    {
      ghost var before := matrix[..];
      NeighbourIndices(m, n, i, j);
      var cost := if s1[i - 1] == s2[j - 1] then 0 else 1;

      var deletion := matrix[(i - 1) * (n + 1) + j] + 1;
      var insertion := matrix[i * (n + 1) + (j - 1)] + 1;
      var substitution := matrix[(i - 1) * (n + 1) + (j - 1)] + cost;

      FillCell(s1, s2, before, i, j, deletion, insertion, substitution);
      matrix[i * (n + 1) + j] := Min(Min(deletion, insertion), substitution);
      assert matrix[..] == before[FlatIndex(n, i, j) := Min(Min(deletion, insertion), substitution)];
    }
    FlatRowStep(n, i);
  }

  /**
   * The three cells that cell (i, j) reads (above, left and diagonally
   * above-left) come before it in the buffer, and it lies inside the buffer.
   */
  lemma NeighbourIndices(m: nat, n: nat, i: nat, j: nat)
    requires 1 <= i <= m && 1 <= j <= n
    ensures FlatIndex(n, i - 1, j - 1) < FlatIndex(n, i - 1, j) < FlatIndex(n, i, j) < (m + 1) * (n + 1)
    ensures FlatIndex(n, i, j - 1) < FlatIndex(n, i, j)
  {
    FlatIndexInBounds(m, n, i, j);
    FlatRowStep(n, i - 1);
  }

  /**
   * Before cell (i, j) is written, the three cells it reads already hold the
   * recurrence.
   */
  lemma NeighboursDone(s1: seq<char>, s2: seq<char>, cells: seq<int>, i: nat, j: nat)
    requires |cells| == (|s1| + 1) * (|s2| + 1)
    requires 1 <= i <= |s1| && 1 <= j <= |s2|
    requires FilledUpTo(s1, s2, cells, FlatIndex(|s2|, i, j))
    ensures FlatIndex(|s2|, i - 1, j - 1) < FlatIndex(|s2|, i - 1, j) < FlatIndex(|s2|, i, j) < |cells|
    ensures FlatIndex(|s2|, i, j - 1) < FlatIndex(|s2|, i, j)
    ensures cells[FlatIndex(|s2|, i - 1, j)] == Dist(s1, s2, i - 1, j)
    ensures cells[FlatIndex(|s2|, i, j - 1)] == Dist(s1, s2, i, j - 1)
    ensures cells[FlatIndex(|s2|, i - 1, j - 1)] == Dist(s1, s2, i - 1, j - 1)
  {
    var n := |s2|;
    NeighbourIndices(|s1|, n, i, j);
    CellAt(s1, s2, cells, FlatIndex(n, i, j), i - 1, j);
    CellAt(s1, s2, cells, FlatIndex(n, i, j), i, j - 1);
    CellAt(s1, s2, cells, FlatIndex(n, i, j), i - 1, j - 1);
  }

  /** A cell before the done position holds the recurrence. */
  lemma CellAt(s1: seq<char>, s2: seq<char>, cells: seq<int>, pos: int, i: nat, j: nat)
    requires |cells| == (|s1| + 1) * (|s2| + 1)
    requires i <= |s1| && j <= |s2| && FlatIndex(|s2|, i, j) < pos
    requires FilledUpTo(s1, s2, cells, pos)
    ensures FlatIndex(|s2|, i, j) < |cells| && cells[FlatIndex(|s2|, i, j)] == Dist(s1, s2, i, j)
  {
    FlatIndexInBounds(|s1|, |s2|, i, j);
    assert CellDone(s1, s2, cells, FlatIndex(|s2|, i, j));
  }

  /**
   * Writing the least of the three candidates, computed from the cells
   * above, to the left and diagonally above-left, at cell (i, j) extends
   * the done prefix past that cell.
   */
  lemma FillCell(s1: seq<char>, s2: seq<char>, cells: seq<int>, i: nat, j: nat,
                 deletion: int, insertion: int, substitution: int)
    requires |cells| == (|s1| + 1) * (|s2| + 1)
    requires 1 <= i <= |s1| && 1 <= j <= |s2|
    requires FilledUpTo(s1, s2, cells, FlatIndex(|s2|, i, j))
    requires FlatIndex(|s2|, i, j) < |cells|
    requires deletion == cells[FlatIndex(|s2|, i - 1, j)] + 1
    requires insertion == cells[FlatIndex(|s2|, i, j - 1)] + 1
    requires substitution == cells[FlatIndex(|s2|, i - 1, j - 1)] + Cost(s1[i - 1], s2[j - 1])
    ensures FilledUpTo(s1, s2, cells[FlatIndex(|s2|, i, j) := Min(Min(deletion, insertion), substitution)],
                       FlatIndex(|s2|, i, j + 1))
  {
    NeighboursDone(s1, s2, cells, i, j);
    FlatIndexInBounds(|s1|, |s2|, i, j);
    FilledExtend(s1, s2, cells, FlatIndex(|s2|, i, j), Min(Min(deletion, insertion), substitution));
  }

  lemma FlatRowStep(n: nat, i: nat)
    ensures FlatIndex(n, i + 1, 0) == FlatIndex(n, i, 0) + n + 1
  {
  }
}
