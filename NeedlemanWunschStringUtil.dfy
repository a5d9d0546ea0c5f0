/**
 * NeedlemanWunschStringUtil: the two-dimensional matrix fill and the
 * similarity percentage, without the choice of engine.
 */
module NeedlemanWunschStringUtil {
  import opened Levenshtein
  import opened Similarity
  import NeedlemanWunschUtil

  method CalculateSimilarityPercentage(s1: seq<char>, s2: seq<char>) returns (p: real)
    ensures p == SimilarityPercentage(s1, s2)
    ensures 0.0 <= p <= 100.0
    ensures p == 100.0 <==> s1 == s2
  {
    SimilarityInRange(s1, s2);
    if s1 == s2 {
      return 100.0;
    }
    var similarityScore := CalculateSimilarity(s1, s2);
    var maxPossibleScore := Max(|s1|, |s2|) as real;
    p := (1.0 - similarityScore as real / maxPossibleScore) * 100.0;
  }

  /** This copy of the fill and the one in NeedlemanWunschUtil agree everywhere. */
  method AgreesWithNeedlemanWunschUtil(s1: seq<char>, s2: seq<char>) returns (here: int, there: int)
    ensures here == there
  {
    here := CalculateSimilarity(s1, s2);
    there := NeedlemanWunschUtil.CalculateSimilarity(s1, s2);
  }

  /** Fills the (m + 1) x (n + 1) matrix row by row and reads its last cell. */
  method CalculateSimilarity(s1: seq<char>, s2: seq<char>) returns (score: int)
    ensures score == EditDistance(s1, s2)
  {
    var m, n := |s1|, |s2|;
    var matrix := new int[m + 1, n + 1];

    // Column 0: matrix[i, 0] = i
    for i := 0 to m + 1
      invariant forall r :: 0 <= r < i ==> matrix[r, 0] == r
    {
      matrix[i, 0] := i;
    }

    // Row 0: matrix[0, j] = j
    for j := 1 to n + 1
      invariant forall r :: 0 <= r <= m ==> matrix[r, 0] == r
      invariant forall c :: 1 <= c < j ==> matrix[0, c] == c
    {
      matrix[0, j] := j;
    }

    for i := 1 to m + 1
      invariant forall r, c {:trigger matrix[r, c]} :: 0 <= r < i && 0 <= c <= n ==> matrix[r, c] == Dist(s1, s2, r, c)
      invariant forall r :: i <= r <= m ==> matrix[r, 0] == r
    {
      for j := 1 to n + 1
        invariant forall r, c {:trigger matrix[r, c]} :: 0 <= r < i && 0 <= c <= n ==> matrix[r, c] == Dist(s1, s2, r, c)
        invariant forall c {:trigger matrix[i, c]} :: 0 <= c < j ==> matrix[i, c] == Dist(s1, s2, i, c)
        invariant forall r :: i < r <= m ==> matrix[r, 0] == r
      {
        var cost := if s1[i - 1] == s2[j - 1] then 0 else 1;

        var deletion := matrix[i - 1, j] + 1;
        var insertion := matrix[i, j - 1] + 1;
        var substitution := matrix[i - 1, j - 1] + cost;

        matrix[i, j] := Min(Min(deletion, insertion), substitution);
        assert matrix[i, j] == Dist(s1, s2, i, j);
      }
    }

    score := matrix[m, n];
  }
}
