/**
 * The similarity percentage both utilities derive from the distance:
 * 100 for equal strings, otherwise (1 - distance / longer length) * 100.
 * The source computes it in double precision; here it is exact.
 */
module Similarity {
  import opened Levenshtein
  import opened EditScripts

  /**
   * Strings that differ are not both empty, so the divisor is positive;
   * Dafny checks that when it admits this definition.
   */
  function SimilarityPercentage(s1: seq<char>, s2: seq<char>): real {
    if s1 == s2 then 100.0
    else
      var maxPossibleScore := Max(|s1|, |s2|) as real;
      (1.0 - EditDistance(s1, s2) as real / maxPossibleScore) * 100.0
  }

  /** A distance no larger than the longer length is a fraction in (0, 1]. */
  lemma RatioInUnit(d: nat, m: nat)
    requires 0 < d <= m
    ensures 0.0 < d as real / m as real <= 1.0
  {
    var q := d as real / m as real;
    assert q * m as real == d as real;
    assert q <= 0.0 ==> q * m as real <= 0.0;
    assert q > 1.0 ==> q * m as real > m as real;
  }

  /**
   * The percentage is a score in [0, 100], and it is 100 exactly when the
   * strings are equal.
   */
  lemma SimilarityInRange(s1: seq<char>, s2: seq<char>)
    ensures 0.0 <= SimilarityPercentage(s1, s2) <= 100.0
    ensures SimilarityPercentage(s1, s2) == 100.0 <==> s1 == s2
  {
    if s1 != s2 {
      var d := EditDistance(s1, s2);
      var m := Max(|s1|, |s2|);
      EditDistanceBounds(s1, s2);
      EditDistanceZeroIffEqual(s1, s2);
      RatioInUnit(d, m);
    }
  }

  /** Comparing s2 with s1 gives the same percentage as s1 with s2. */
  lemma SimilaritySymmetric(s1: seq<char>, s2: seq<char>)
    ensures SimilarityPercentage(s1, s2) == SimilarityPercentage(s2, s1)
  {
    EditDistanceSymmetric(s1, s2);
  }

  /** The percentages the source's tests expect for the kitten pairs (to 0.001). */
  lemma SimilarityExamplesKitten()
    ensures SimilarityPercentage("kitten", "sitting") == 400.0 / 7.0
    ensures 57.1428 - 0.001 <= SimilarityPercentage("kitten", "sitting") <= 57.1428 + 0.001
    ensures SimilarityPercentage("kitten", "kitten") == 100.0
  {
    KittenSitting();
    assert "kitten" != "sitting" by { assert "kitten"[0] != "sitting"[0]; }
  }

  /** The percentages the source's tests expect when one string is empty. */
  lemma SimilarityExamplesEmpty()
    ensures SimilarityPercentage("", "") == 100.0
    ensures SimilarityPercentage("abc", "") == 0.0
    ensures SimilarityPercentage("", "xyz") == 0.0
  {
    EditDistanceBounds("abc", "");
    EditDistanceBounds("", "xyz");
    assert "" != "xyz" by { assert |"xyz"| == 3; }
  }

  /** No character in common: nothing is similar. */
  lemma SimilarityExampleAbcDef()
    ensures SimilarityPercentage("abc", "def") == 0.0
  {
    AbcDef();
    assert "abc" != "def" by { assert "abc"[0] != "def"[0]; }
  }

  /** Half of the longer string survives. */
  lemma SimilarityExampleAbcdefAbc()
    ensures SimilarityPercentage("abcdef", "abc") == 50.0
  {
    EditDistanceOfPrefix("abcdef", "abc");
  }

  /** Three of four characters survive. */
  lemma SimilarityExampleAbcAbcd()
    ensures SimilarityPercentage("abc", "abcd") == 75.0
  {
    EditDistanceOfExtension("abc", "abcd");
  }
}
