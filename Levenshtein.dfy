/**
 * The unit-cost edit distance that both Needleman-Wunsch utilities compute.
 *
 * Dist(a, b, i, j) is the value the dynamic program stores in matrix cell
 * (i, j): the distance between the first i characters of a and the first j
 * characters of b. Column 0 holds i, row 0 holds j, and every other cell is
 * the least of a deletion, an insertion and a substitution, combined with
 * Math.Min exactly as the source nests it.
 */
module Levenshtein {

  /** Math.Min on integers. */
  function Min(x: int, y: int): int {
    if x <= y then x else y
  }

  function Max(x: int, y: int): int {
    if x >= y then x else y
  }

  /** |x - y|, the length difference of two prefixes. */
  function Diff(x: int, y: int): nat {
    if x >= y then x - y else y - x
  }

  /** The substitution cost: 0 when the two characters agree, 1 otherwise. */
  function Cost(x: char, y: char): nat {
    if x == y then 0 else 1
  }

  /** Matrix cell (i, j) of the recurrence. */
  function Dist(a: seq<char>, b: seq<char>, i: nat, j: nat): nat
    requires i <= |a| && j <= |b|
    decreases i + j
  {
    if i == 0 then j
    else if j == 0 then i
    else
      var deletion := Dist(a, b, i - 1, j) + 1;
      var insertion := Dist(a, b, i, j - 1) + 1;
      var substitution := Dist(a, b, i - 1, j - 1) + Cost(a[i - 1], b[j - 1]);
      Min(Min(deletion, insertion), substitution)
  }

  /** The distance of the whole strings: the bottom-right cell. */
  function EditDistance(a: seq<char>, b: seq<char>): nat {
    Dist(a, b, |a|, |b|)
  }

  lemma {:induction false} DistLower(a: seq<char>, b: seq<char>, i: nat, j: nat)
    requires i <= |a| && j <= |b|
    ensures i <= j + Dist(a, b, i, j) && j <= i + Dist(a, b, i, j)
    decreases i + j
  {
    if i > 0 && j > 0 {
      DistLower(a, b, i - 1, j);
      DistLower(a, b, i, j - 1);
      DistLower(a, b, i - 1, j - 1);
    }
  }

  lemma {:induction false} DistUpper(a: seq<char>, b: seq<char>, i: nat, j: nat)
    requires i <= |a| && j <= |b|
    ensures Dist(a, b, i, j) <= Max(i, j)
    decreases i + j
  {
    if i > 0 && j > 0 {
      DistUpper(a, b, i - 1, j - 1);
    }
  }

  lemma DistBounds(a: seq<char>, b: seq<char>, i: nat, j: nat)
    requires i <= |a| && j <= |b|
    ensures Diff(i, j) <= Dist(a, b, i, j) <= Max(i, j)
  {
    DistLower(a, b, i, j);
    DistUpper(a, b, i, j);
  }

  /**
   * On whole strings: the distance never exceeds the longer length, and when
   * one string is empty it is the other string's length.
   */
  lemma EditDistanceBounds(a: seq<char>, b: seq<char>)
    ensures Diff(|a|, |b|) <= EditDistance(a, b) <= Max(|a|, |b|)
    ensures a == [] ==> EditDistance(a, b) == |b|
    ensures b == [] ==> EditDistance(a, b) == |a|
  {
    DistBounds(a, b, |a|, |b|);
  }

  /** Every cell depends only on the prefixes it is about. */
  lemma {:induction false} DistPrefix(a: seq<char>, b: seq<char>, i: nat, j: nat, a': seq<char>, b': seq<char>)
    requires i <= |a| && j <= |b| && i <= |a'| && j <= |b'|
    requires a[..i] == a'[..i] && b[..j] == b'[..j]
    ensures Dist(a, b, i, j) == Dist(a', b', i, j)
    decreases i + j
  {
    if i > 0 && j > 0 {
      assert a[i - 1] == a[..i][i - 1] == a'[i - 1];
      assert b[j - 1] == b[..j][j - 1] == b'[j - 1];
      assert a[..i - 1] == a[..i][..i - 1] && a'[..i - 1] == a'[..i][..i - 1];
      assert b[..j - 1] == b[..j][..j - 1] && b'[..j - 1] == b'[..j][..j - 1];
      DistPrefix(a, b, i - 1, j, a', b');
      DistPrefix(a, b, i, j - 1, a', b');
      DistPrefix(a, b, i - 1, j - 1, a', b');
    }
  }

  /** A string is at distance 0 from itself, prefix by prefix. */
  lemma {:induction false} DistSelf(a: seq<char>, i: nat)
    requires i <= |a|
    ensures Dist(a, a, i, i) == 0
  {
    if i > 0 {
      DistSelf(a, i - 1);
    }
  }

  lemma EditDistanceSelf(a: seq<char>)
    ensures EditDistance(a, a) == 0
  {
    DistSelf(a, |a|);
  }

  /** Distance 0 holds exactly for equal strings. */
  lemma {:induction false} DistZeroIffEqual(a: seq<char>, b: seq<char>, i: nat, j: nat)
    requires i <= |a| && j <= |b|
    ensures Dist(a, b, i, j) == 0 <==> a[..i] == b[..j]
    decreases i + j
  {
    if i > 0 && j > 0 {
      DistZeroIffEqual(a, b, i - 1, j - 1);
      assert a[..i] == a[..i - 1] + [a[i - 1]];
      assert b[..j] == b[..j - 1] + [b[j - 1]];
      if a[..i] == b[..j] {
        assert a[..i - 1] == a[..i][..i - 1] == b[..j][..j - 1] == b[..j - 1];
        assert a[i - 1] == a[..i][i - 1] == b[..j][j - 1] == b[j - 1];
      }
    }
  }

  lemma EditDistanceZeroIffEqual(a: seq<char>, b: seq<char>)
    ensures EditDistance(a, b) == 0 <==> a == b
  {
    DistZeroIffEqual(a, b, |a|, |b|);
    assert a[..|a|] == a && b[..|b|] == b;
  }

  /** Dropping characters from the end of a costs one deletion each. */
  lemma {:induction false} DistOfPrefix(a: seq<char>, b: seq<char>, i: nat)
    requires |b| <= i <= |a| && a[..|b|] == b
    ensures Dist(a, b, i, |b|) == i - |b|
  {
    if i == |b| {
      DistZeroIffEqual(a, b, i, |b|);
      assert b[..|b|] == b;
    } else {
      DistOfPrefix(a, b, i - 1);
      DistBounds(a, b, i, |b|);
    }
  }

  lemma EditDistanceOfPrefix(a: seq<char>, b: seq<char>)
    requires |b| <= |a| && a[..|b|] == b
    ensures EditDistance(a, b) == |a| - |b|
  {
    DistOfPrefix(a, b, |a|);
  }

  /** Extending a string at the end costs one insertion per character. */
  lemma {:induction false} DistOfExtension(a: seq<char>, b: seq<char>, j: nat)
    requires |a| <= j <= |b| && b[..|a|] == a
    ensures Dist(a, b, |a|, j) == j - |a|
  {
    if j == |a| {
      DistZeroIffEqual(a, b, |a|, j);
      assert a[..|a|] == a;
    } else {
      DistOfExtension(a, b, j - 1);
      DistBounds(a, b, |a|, j);
    }
  }

  lemma EditDistanceOfExtension(a: seq<char>, b: seq<char>)
    requires |a| <= |b| && b[..|a|] == a
    ensures EditDistance(a, b) == |b| - |a|
  {
    DistOfExtension(a, b, |b|);
  }

  /** The matrix of "abc" against "def": no character matches, so no cell is helped. */
  lemma AbcDef()
    ensures EditDistance("abc", "def") == 3
  {
    var a, b := "abc", "def";
    assert Dist(a, b, 1, 1) == 1;
    assert Dist(a, b, 1, 2) == 2;
    assert Dist(a, b, 1, 3) == 3;
    assert Dist(a, b, 2, 1) == 2;
    assert Dist(a, b, 2, 2) == 2;
    assert Dist(a, b, 2, 3) == 3;
    assert Dist(a, b, 3, 1) == 3;
    assert Dist(a, b, 3, 2) == 3;
    assert Dist(a, b, 3, 3) == 3;
  }

  /**
   * Rows of the matrix of "kitten" against "sitting", each from the rows
   * above it.
   */
  lemma KittenSittingRow1(a: seq<char>, b: seq<char>)
    requires a == "kitten" && b == "sitting"
    ensures Dist(a, b, 1, 1) == 1 && Dist(a, b, 1, 2) == 2 && Dist(a, b, 1, 3) == 3 && Dist(a, b, 1, 4) == 4 && Dist(a, b, 1, 5) == 5 && Dist(a, b, 1, 6) == 6 && Dist(a, b, 1, 7) == 7
  {
  }

  lemma KittenSittingRow2(a: seq<char>, b: seq<char>)
    requires a == "kitten" && b == "sitting"
    requires Dist(a, b, 1, 1) == 1 && Dist(a, b, 1, 2) == 2 && Dist(a, b, 1, 3) == 3 && Dist(a, b, 1, 4) == 4 && Dist(a, b, 1, 5) == 5 && Dist(a, b, 1, 6) == 6 && Dist(a, b, 1, 7) == 7
    ensures Dist(a, b, 2, 1) == 2 && Dist(a, b, 2, 2) == 1 && Dist(a, b, 2, 3) == 2 && Dist(a, b, 2, 4) == 3 && Dist(a, b, 2, 5) == 4 && Dist(a, b, 2, 6) == 5 && Dist(a, b, 2, 7) == 6
  {
  }

  lemma KittenSittingRow3(a: seq<char>, b: seq<char>)
    requires a == "kitten" && b == "sitting"
    requires Dist(a, b, 1, 1) == 1 && Dist(a, b, 1, 2) == 2 && Dist(a, b, 1, 3) == 3 && Dist(a, b, 1, 4) == 4 && Dist(a, b, 1, 5) == 5 && Dist(a, b, 1, 6) == 6 && Dist(a, b, 1, 7) == 7
    requires Dist(a, b, 2, 1) == 2 && Dist(a, b, 2, 2) == 1 && Dist(a, b, 2, 3) == 2 && Dist(a, b, 2, 4) == 3 && Dist(a, b, 2, 5) == 4 && Dist(a, b, 2, 6) == 5 && Dist(a, b, 2, 7) == 6
    ensures Dist(a, b, 3, 1) == 3 && Dist(a, b, 3, 2) == 2 && Dist(a, b, 3, 3) == 1 && Dist(a, b, 3, 4) == 2 && Dist(a, b, 3, 5) == 3 && Dist(a, b, 3, 6) == 4 && Dist(a, b, 3, 7) == 5
  {
  }

  lemma KittenSittingRow4(a: seq<char>, b: seq<char>)
    requires a == "kitten" && b == "sitting"
    requires Dist(a, b, 1, 1) == 1 && Dist(a, b, 1, 2) == 2 && Dist(a, b, 1, 3) == 3 && Dist(a, b, 1, 4) == 4 && Dist(a, b, 1, 5) == 5 && Dist(a, b, 1, 6) == 6 && Dist(a, b, 1, 7) == 7
    requires Dist(a, b, 2, 1) == 2 && Dist(a, b, 2, 2) == 1 && Dist(a, b, 2, 3) == 2 && Dist(a, b, 2, 4) == 3 && Dist(a, b, 2, 5) == 4 && Dist(a, b, 2, 6) == 5 && Dist(a, b, 2, 7) == 6
    requires Dist(a, b, 3, 1) == 3 && Dist(a, b, 3, 2) == 2 && Dist(a, b, 3, 3) == 1 && Dist(a, b, 3, 4) == 2 && Dist(a, b, 3, 5) == 3 && Dist(a, b, 3, 6) == 4 && Dist(a, b, 3, 7) == 5
    ensures Dist(a, b, 4, 1) == 4 && Dist(a, b, 4, 2) == 3 && Dist(a, b, 4, 3) == 2 && Dist(a, b, 4, 4) == 1 && Dist(a, b, 4, 5) == 2 && Dist(a, b, 4, 6) == 3 && Dist(a, b, 4, 7) == 4
  {
  }

  lemma KittenSittingRow5(a: seq<char>, b: seq<char>)
    requires a == "kitten" && b == "sitting"
    requires Dist(a, b, 1, 1) == 1 && Dist(a, b, 1, 2) == 2 && Dist(a, b, 1, 3) == 3 && Dist(a, b, 1, 4) == 4 && Dist(a, b, 1, 5) == 5 && Dist(a, b, 1, 6) == 6 && Dist(a, b, 1, 7) == 7
    requires Dist(a, b, 2, 1) == 2 && Dist(a, b, 2, 2) == 1 && Dist(a, b, 2, 3) == 2 && Dist(a, b, 2, 4) == 3 && Dist(a, b, 2, 5) == 4 && Dist(a, b, 2, 6) == 5 && Dist(a, b, 2, 7) == 6
    requires Dist(a, b, 3, 1) == 3 && Dist(a, b, 3, 2) == 2 && Dist(a, b, 3, 3) == 1 && Dist(a, b, 3, 4) == 2 && Dist(a, b, 3, 5) == 3 && Dist(a, b, 3, 6) == 4 && Dist(a, b, 3, 7) == 5
    requires Dist(a, b, 4, 1) == 4 && Dist(a, b, 4, 2) == 3 && Dist(a, b, 4, 3) == 2 && Dist(a, b, 4, 4) == 1 && Dist(a, b, 4, 5) == 2 && Dist(a, b, 4, 6) == 3 && Dist(a, b, 4, 7) == 4
    ensures Dist(a, b, 5, 1) == 5 && Dist(a, b, 5, 2) == 4 && Dist(a, b, 5, 3) == 3 && Dist(a, b, 5, 4) == 2 && Dist(a, b, 5, 5) == 2 && Dist(a, b, 5, 6) == 3 && Dist(a, b, 5, 7) == 4
  {
  }

  lemma KittenSittingRow6(a: seq<char>, b: seq<char>)
    requires a == "kitten" && b == "sitting"
    requires Dist(a, b, 1, 1) == 1 && Dist(a, b, 1, 2) == 2 && Dist(a, b, 1, 3) == 3 && Dist(a, b, 1, 4) == 4 && Dist(a, b, 1, 5) == 5 && Dist(a, b, 1, 6) == 6 && Dist(a, b, 1, 7) == 7
    requires Dist(a, b, 2, 1) == 2 && Dist(a, b, 2, 2) == 1 && Dist(a, b, 2, 3) == 2 && Dist(a, b, 2, 4) == 3 && Dist(a, b, 2, 5) == 4 && Dist(a, b, 2, 6) == 5 && Dist(a, b, 2, 7) == 6
    requires Dist(a, b, 3, 1) == 3 && Dist(a, b, 3, 2) == 2 && Dist(a, b, 3, 3) == 1 && Dist(a, b, 3, 4) == 2 && Dist(a, b, 3, 5) == 3 && Dist(a, b, 3, 6) == 4 && Dist(a, b, 3, 7) == 5
    requires Dist(a, b, 4, 1) == 4 && Dist(a, b, 4, 2) == 3 && Dist(a, b, 4, 3) == 2 && Dist(a, b, 4, 4) == 1 && Dist(a, b, 4, 5) == 2 && Dist(a, b, 4, 6) == 3 && Dist(a, b, 4, 7) == 4
    requires Dist(a, b, 5, 1) == 5 && Dist(a, b, 5, 2) == 4 && Dist(a, b, 5, 3) == 3 && Dist(a, b, 5, 4) == 2 && Dist(a, b, 5, 5) == 2 && Dist(a, b, 5, 6) == 3 && Dist(a, b, 5, 7) == 4
    ensures Dist(a, b, 6, 1) == 6 && Dist(a, b, 6, 2) == 5 && Dist(a, b, 6, 3) == 4 && Dist(a, b, 6, 4) == 3 && Dist(a, b, 6, 5) == 3 && Dist(a, b, 6, 6) == 2 && Dist(a, b, 6, 7) == 3
  {
  }

  lemma KittenSitting()
    ensures EditDistance("kitten", "sitting") == 3
  {
    var a, b := "kitten", "sitting";
    KittenSittingRow1(a, b);
    KittenSittingRow2(a, b);
    KittenSittingRow3(a, b);
    KittenSittingRow4(a, b);
    KittenSittingRow5(a, b);
    KittenSittingRow6(a, b);
  }

  /** The distances the source's tests expect. */
  lemma EditDistanceExamples()
    ensures EditDistance("", "") == 0
    ensures EditDistance("abc", "") == 3
    ensures EditDistance("", "xyz") == 3
    ensures EditDistance("kitten", "sitting") == 3
    ensures EditDistance("kitten", "kitten") == 0
    ensures EditDistance("abc", "def") == 3
    ensures EditDistance("abcdef", "abc") == 3
    ensures EditDistance("abc", "abcd") == 1
  {
    KittenSitting();
    EditDistanceBounds("abc", "");
    EditDistanceBounds("", "xyz");
    EditDistanceSelf("kitten");
    AbcDef();
    EditDistanceOfPrefix("abcdef", "abc");
    EditDistanceOfExtension("abc", "abcd");
  }
}
