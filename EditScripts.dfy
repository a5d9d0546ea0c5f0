/**
 * An independent reading of the matrix: the number in the bottom-right cell
 * is the least number of single-character insertions, deletions and
 * substitutions that turn the first string into the second.
 *
 * A script is read against both strings from the end, which is the order in
 * which the recurrence looks at the last characters of two prefixes.
 */
module EditScripts {
  import opened Levenshtein

  datatype Edit =
    | Keep              // copy the character, free
    | Substitute(c: char) // replace the character by c
    | Delete            // drop the character
    | Insert(c: char)   // add c

  /** The script turns x into y. */
  predicate Transforms(script: seq<Edit>, x: seq<char>, y: seq<char>)
    decreases |script|
  {
    if script == [] then x == [] && y == []
    else
      var rest := script[..|script| - 1];
      match script[|script| - 1]
      case Keep =>
        x != [] && y != [] && x[|x| - 1] == y[|y| - 1] &&
        Transforms(rest, x[..|x| - 1], y[..|y| - 1])
      case Substitute(c) =>
        x != [] && y != [] && y[|y| - 1] == c &&
        Transforms(rest, x[..|x| - 1], y[..|y| - 1])
      case Delete =>
        x != [] && Transforms(rest, x[..|x| - 1], y)
      case Insert(c) =>
        y != [] && y[|y| - 1] == c && Transforms(rest, x, y[..|y| - 1])
  }

  /** Every edit other than Keep costs one. */
  function ScriptCost(script: seq<Edit>): nat {
    if script == [] then 0
    else ScriptCost(script[..|script| - 1]) + (if script[|script| - 1].Keep? then 0 else 1)
  }

  /** No script is cheaper than the matrix cell of the two prefixes. */
  lemma {:induction false} DistIsLowerBound(script: seq<Edit>, a: seq<char>, b: seq<char>, i: nat, j: nat)
    requires i <= |a| && j <= |b|
    requires Transforms(script, a[..i], b[..j])
    ensures Dist(a, b, i, j) <= ScriptCost(script)
    decreases |script|
  {
    if script != [] {
      var rest := script[..|script| - 1];
      match script[|script| - 1]
      case Keep =>
        assert a[..i][..i - 1] == a[..i - 1] && b[..j][..j - 1] == b[..j - 1];
        assert a[..i][i - 1] == a[i - 1] && b[..j][j - 1] == b[j - 1];
        DistIsLowerBound(rest, a, b, i - 1, j - 1);
      case Substitute(_) =>
        assert a[..i][..i - 1] == a[..i - 1] && b[..j][..j - 1] == b[..j - 1];
        DistIsLowerBound(rest, a, b, i - 1, j - 1);
      case Delete =>
        assert a[..i][..i - 1] == a[..i - 1];
        DistIsLowerBound(rest, a, b, i - 1, j);
      case Insert(_) =>
        assert b[..j][..j - 1] == b[..j - 1];
        DistIsLowerBound(rest, a, b, i, j - 1);
    }
  }

  /** Adding one edit at the end extends a script over the two prefixes. */
  lemma Extend(script: seq<Edit>, e: Edit, a: seq<char>, b: seq<char>, i: nat, j: nat, i': nat, j': nat)
    requires i' <= |a| && j' <= |b| && i <= i' && j <= j'
    requires Transforms(script, a[..i], b[..j])
    requires e.Keep? ==> i' == i + 1 && j' == j + 1 && a[i] == b[j]
    requires e.Substitute? ==> i' == i + 1 && j' == j + 1 && e.c == b[j]
    requires e.Delete? ==> i' == i + 1 && j' == j
    requires e.Insert? ==> i' == i && j' == j + 1 && e.c == b[j]
    ensures Transforms(script + [e], a[..i'], b[..j'])
    ensures ScriptCost(script + [e]) == ScriptCost(script) + (if e.Keep? then 0 else 1)
  {
    assert (script + [e])[..|script|] == script;
    assert a[..i'][..i] == a[..i] && b[..j'][..j] == b[..j];
  }

  /** Some script costs exactly the matrix cell of the two prefixes. */
  lemma {:induction false} DistIsAchieved(a: seq<char>, b: seq<char>, i: nat, j: nat) returns (script: seq<Edit>)
    requires i <= |a| && j <= |b|
    ensures Transforms(script, a[..i], b[..j]) && ScriptCost(script) == Dist(a, b, i, j)
    decreases i + j
  {
    if i == 0 && j == 0 {
      script := [];
    } else if i == 0 || (j > 0 && Dist(a, b, i, j) == Dist(a, b, i, j - 1) + 1) {
      var s := DistIsAchieved(a, b, i, j - 1);
      script := s + [Insert(b[j - 1])];
      Extend(s, Insert(b[j - 1]), a, b, i, j - 1, i, j);
    } else if j == 0 || Dist(a, b, i, j) == Dist(a, b, i - 1, j) + 1 {
      var s := DistIsAchieved(a, b, i - 1, j);
      script := s + [Delete];
      Extend(s, Delete, a, b, i - 1, j, i, j);
    } else {
      var s := DistIsAchieved(a, b, i - 1, j - 1);
      var e := if a[i - 1] == b[j - 1] then Keep else Substitute(b[j - 1]);
      script := s + [e];
      Extend(s, e, a, b, i - 1, j - 1, i, j);
    }
  }

  /**
   * Reading a script backwards: what was deleted is inserted, what was
   * inserted is deleted, and a substitution puts back the original
   * character.
   */
  function Invert(script: seq<Edit>, x: seq<char>, y: seq<char>): seq<Edit>
    requires Transforms(script, x, y)
    decreases |script|
  {
    if script == [] then []
    else
      var rest := script[..|script| - 1];
      match script[|script| - 1]
      case Keep => Invert(rest, x[..|x| - 1], y[..|y| - 1]) + [Keep]
      case Substitute(_) => Invert(rest, x[..|x| - 1], y[..|y| - 1]) + [Substitute(x[|x| - 1])]
      case Delete => Invert(rest, x[..|x| - 1], y) + [Insert(x[|x| - 1])]
      case Insert(_) => Invert(rest, x, y[..|y| - 1]) + [Delete]
  }

  /** The inverted script turns y back into x, at the same cost. */
  lemma {:induction false} InvertTransforms(script: seq<Edit>, x: seq<char>, y: seq<char>)
    requires Transforms(script, x, y)
    ensures Transforms(Invert(script, x, y), y, x)
    ensures ScriptCost(Invert(script, x, y)) == ScriptCost(script)
    decreases |script|
  {
    if script != [] {
      var rest := script[..|script| - 1];
      var inv := Invert(script, x, y);
      match script[|script| - 1]
      case Keep =>
        InvertTransforms(rest, x[..|x| - 1], y[..|y| - 1]);
        assert inv[..|inv| - 1] == Invert(rest, x[..|x| - 1], y[..|y| - 1]);
      case Substitute(_) =>
        InvertTransforms(rest, x[..|x| - 1], y[..|y| - 1]);
        assert inv[..|inv| - 1] == Invert(rest, x[..|x| - 1], y[..|y| - 1]);
      case Delete =>
        InvertTransforms(rest, x[..|x| - 1], y);
        assert inv[..|inv| - 1] == Invert(rest, x[..|x| - 1], y);
      case Insert(_) =>
        InvertTransforms(rest, x, y[..|y| - 1]);
        assert inv[..|inv| - 1] == Invert(rest, x, y[..|y| - 1]);
    }
  }

  /** Swapping the two strings does not change the distance. */
  lemma EditDistanceSymmetric(a: seq<char>, b: seq<char>)
    ensures EditDistance(a, b) == EditDistance(b, a)
  {
    assert a[..|a|] == a && b[..|b|] == b;
    var ab := DistIsAchieved(a, b, |a|, |b|);
    var ba := DistIsAchieved(b, a, |b|, |a|);
    InvertTransforms(ab, a, b);
    InvertTransforms(ba, b, a);
    DistIsLowerBound(Invert(ba, b, a), a, b, |a|, |b|);
    DistIsLowerBound(Invert(ab, a, b), b, a, |b|, |a|);
  }

  /**
   * The value in the bottom-right cell is the Levenshtein distance: some
   * script turns a into b at that cost, and no script does it for less.
   */
  lemma EditDistanceIsMinimal(a: seq<char>, b: seq<char>)
    ensures exists script :: Transforms(script, a, b) && ScriptCost(script) == EditDistance(a, b)
    ensures forall script :: Transforms(script, a, b) ==> EditDistance(a, b) <= ScriptCost(script)
  {
    assert a[..|a|] == a && b[..|b|] == b;
    var best := DistIsAchieved(a, b, |a|, |b|);
    forall script | Transforms(script, a, b)
      ensures EditDistance(a, b) <= ScriptCost(script)
    {
      DistIsLowerBound(script, a, b, |a|, |b|);
    }
  }
}
