# Needleman-Wunsch string similarity, modelled in Dafny

The library compares two strings in two steps. First it computes an edit score with the
unit-cost dynamic program that it calls Needleman-Wunsch. With unit costs this is the
Levenshtein distance. Then it turns the score into a similarity percentage.
`NeedlemanWunschUtil` offers two engines for the score:

- a fill of an `(m + 1) x (n + 1)` two-dimensional matrix;
- a fill of a flat buffer of `(m + 1) * (n + 1)` cells, addressed row-major as `i * (n + 1) + j`.

It also offers the percentage, with a flag that picks the engine. `NeedlemanWunschStringUtil`
is a copy of the two-dimensional fill and of the percentage, without the flag.

The project has five modules:

- `Levenshtein` defines the recurrence both engines fill. `Dist(a, b, i, j)` is the value of
  matrix cell `(i, j)`: `j` in row 0, `i` in column 0, and otherwise the least of a deletion, an
  insertion and a substitution. Its minima are nested exactly as the source nests `Math.Min`.
  The module proves bounds, the zero cases and the distances the library's tests expect.
- `EditScripts` is an independent reference definition. A script of `Keep`, `Substitute`,
  `Delete` and `Insert` edits turns one string into the other. The module proves that the
  bottom-right cell is the cost of the cheapest such script, and that the distance is symmetric.
- `Similarity` is the percentage, over exact reals. The module proves its range and when it
  equals 100.
- `NeedlemanWunschUtil` holds the engines as methods over `array2<int>` and `array<int>`. Each
  fill loop carries invariants stating that every cell written so far holds `Dist`. The
  percentage method also lives here.
- `NeedlemanWunschStringUtil` holds the copied engine and percentage.

The source comments on the two initialisation loops are swapped. At
`src/NeedlemanWunschUtil.cs:49` and `:55`, and at `src/NeedlemanWunschStringUtil.cs:42` and
`:48`, the loop labelled "first row" actually writes column 0 (`matrix[i, 0] = i`). The loop
labelled "first column" actually writes row 0. The model follows the code.

The flat-buffer engine runs its rows under `Parallel.For`. Row `i` reads row `i - 1` of the
shared buffer, so the intended result is the one produced by running the rows in increasing
order. The model runs them that way. The body that the source hands to `Parallel.For` for
one row is the method `FillRow`.

## Model

| member | source | states |
|---|---|---|
| Levenshtein.Cost | src/NeedlemanWunschUtil.cs:66 | The substitution cost: 0 when the two characters agree, 1 otherwise. |
| Levenshtein.Dist | src/NeedlemanWunschUtil.cs:50-74 | The value of matrix cell `(i, j)`: `i` in column 0, `j` in row 0, and otherwise `Min(Min(deletion, insertion), substitution)` of the three neighbours. Its properties are the `Dist...` lemmas below. |
| Levenshtein.EditDistance | src/NeedlemanWunschUtil.cs:77 | The bottom-right cell, which both engines return. |
| Similarity.SimilarityPercentage | src/NeedlemanWunschUtil.cs:22-33 | 100 for equal strings, otherwise `(1 - d / max(|s1|, |s2|)) * 100`; the divisor is positive whenever the strings differ. The copy at `src/NeedlemanWunschStringUtil.cs:20-26` computes the same value. Its properties are the `Similarity...` lemmas below. |
| NeedlemanWunschUtil.FlatIndex | src/NeedlemanWunschUtil.cs:94-117 | The row-major index `i * (n + 1) + j` of cell `(i, j)`. Its properties are `FlatIndexInBounds` and `FlatIndexCovers`. |
| NeedlemanWunschUtil.CalculateSimilarity | src/NeedlemanWunschUtil.cs:45-78 | After the column-0 and row-0 loops, and after every cell of the row-major fill, every cell written so far equals the recurrence. The returned bottom-right cell is the edit distance of the two strings. |
| NeedlemanWunschUtil.CalculateSimilarityInParallel | src/NeedlemanWunschUtil.cs:87-118 | The flat buffer's column 0 and row 0 are initialised. The rows are then filled in increasing order. The value read at `m * (n + 1) + n` is the edit distance. |
| NeedlemanWunschUtil.FillRow | src/NeedlemanWunschUtil.cs:102-114 | One row of the flat fill. If every cell before `(i, 0)` is done, and column 0 is done, then afterwards every cell before `(i + 1, 0)` holds the recurrence. It writes only its own cells `(i, 1)` to `(i, n)`: every other cell keeps its value. |
| NeedlemanWunschUtil.FlatIndexInBounds | src/NeedlemanWunschUtil.cs:89-117 | Every cell `(i, j)` of the matrix has its flat index `i * (n + 1) + j` inside the buffer. Division and remainder by `n + 1` give back `i` and `j`. |
| NeedlemanWunschUtil.FlatIndexCovers | src/NeedlemanWunschUtil.cs:89 | Every buffer index is the flat index of some cell, so the buffer holds nothing but the matrix. |
| NeedlemanWunschUtil.NeighbourIndices | src/NeedlemanWunschUtil.cs:106-112 | The three cells that cell `(i, j)` reads come before it in the buffer. Cell `(i, j)` itself lies inside the buffer. |
| NeedlemanWunschUtil.ColumnZeroExtend | src/NeedlemanWunschUtil.cs:92-95 | Writing `i` at index `i * (n + 1)` extends the done part of column 0 by one row. |
| NeedlemanWunschUtil.FilledExtend | src/NeedlemanWunschUtil.cs:97-100 | Writing the recurrence's value at the next row-major position extends the done prefix by one cell. |
| NeedlemanWunschUtil.NeighboursDone | src/NeedlemanWunschUtil.cs:108-110 | Once every cell before `(i, j)` is done, the cells above, to the left and diagonally above-left hold the recurrence. |
| NeedlemanWunschUtil.FillCell | src/NeedlemanWunschUtil.cs:106-112 | The least of the deletion, insertion and substitution candidates is the recurrence at `(i, j)`. Writing it extends the done prefix past that cell. |
| NeedlemanWunschUtil.EnginesAgree | src/NeedlemanWunschUtil.cs:27-30 | The two-dimensional engine and the flat engine return the same score for every pair of strings. |
| NeedlemanWunschUtil.CalculateSimilarityPercentage | src/NeedlemanWunschUtil.cs:20-36 | Returns 100 exactly when the strings are equal, and otherwise `(1 - d / max(|s1|, |s2|)) * 100`. The result lies in `[0, 100]`, and the `parallel` flag does not change it. |
| NeedlemanWunschStringUtil.CalculateSimilarity | src/NeedlemanWunschStringUtil.cs:38-71 | The same invariants as the copy in `NeedlemanWunschUtil`. The returned bottom-right cell is the edit distance. |
| NeedlemanWunschStringUtil.AgreesWithNeedlemanWunschUtil | src/NeedlemanWunschStringUtil.cs:38-71 | This copy of the fill returns what `NeedlemanWunschUtil.CalculateSimilarity` returns, for all inputs. |
| NeedlemanWunschStringUtil.CalculateSimilarityPercentage | src/NeedlemanWunschStringUtil.cs:18-29 | Returns 100 exactly when the strings are equal, and otherwise the normalised score. The result lies in `[0, 100]`. |
| Levenshtein.DistLower | src/NeedlemanWunschUtil.cs:62-74 | Every cell is at least the difference of its prefix lengths. |
| Levenshtein.DistUpper | src/NeedlemanWunschUtil.cs:62-74 | Every cell is at most the longer of its prefix lengths. |
| Levenshtein.DistBounds | src/NeedlemanWunschUtil.cs:62-74 | Both bounds at once, for any cell. |
| Levenshtein.EditDistanceBounds | src/NeedlemanWunschUtil.cs:77 | The returned cell lies between the length difference and the longer length. When one string is empty, it is the other's length. |
| Levenshtein.DistPrefix | src/NeedlemanWunschUtil.cs:66 | A cell depends only on the prefixes it covers, because the fill reads only `s1[i - 1]` and `s2[j - 1]`. |
| Levenshtein.DistSelf | src/NeedlemanWunschUtil.cs:62-74 | The diagonal of a string's matrix against itself is all zeros. |
| Levenshtein.EditDistanceSelf | src/NeedlemanWunschUtil.cs:77 | A string's distance to itself is 0. |
| Levenshtein.DistZeroIffEqual | src/NeedlemanWunschUtil.cs:62-74 | A cell is 0 if and only if the two prefixes are equal. |
| Levenshtein.EditDistanceZeroIffEqual | src/NeedlemanWunschUtil.cs:77 | The distance is 0 if and only if the strings are equal. |
| Levenshtein.DistOfPrefix | src/NeedlemanWunschUtil.cs:62-74 | Against a prefix of itself, a string's cells count one deletion per extra character. |
| Levenshtein.EditDistanceOfPrefix | src/NeedlemanWunschUtil.cs:77 | Dropping characters from the end costs one deletion each. |
| Levenshtein.DistOfExtension | src/NeedlemanWunschUtil.cs:62-74 | Against an extension of itself, a string's cells count one insertion per extra character. |
| Levenshtein.EditDistanceOfExtension | src/NeedlemanWunschUtil.cs:77 | Appending characters costs one insertion each. |
| Levenshtein.AbcDef | test/NeedlemanWunschUtilTests.cs:21 | "abc" against "def" scores 3. |
| Levenshtein.KittenSitting | test/NeedlemanWunschUtilTests.cs:19 | "kitten" against "sitting" scores 3, taken row by row through the whole matrix. |
| Levenshtein.EditDistanceExamples | test/NeedlemanWunschUtilTests.cs:16-23 | Every score the tests expect from both engines. |
| EditScripts.DistIsLowerBound | src/NeedlemanWunschUtil.cs:62-74 | No script that turns one prefix into the other is cheaper than their cell. |
| EditScripts.Extend | src/NeedlemanWunschUtil.cs:68-70 | A script over two prefixes, extended by the edit that matches one step of the recurrence, covers the longer prefixes. Its cost grows by that edit's cost. |
| EditScripts.DistIsAchieved | src/NeedlemanWunschUtil.cs:62-74 | Some script turns the prefixes into each other at exactly the cell's cost. |
| EditScripts.InvertTransforms | src/NeedlemanWunschUtil.cs:68-70 | Reading a script backwards, so that deletions and insertions trade places, turns the second string into the first at the same cost. |
| EditScripts.EditDistanceSymmetric | src/NeedlemanWunschUtil.cs:45-78 | Swapping the two strings does not change the score. |
| EditScripts.EditDistanceIsMinimal | src/NeedlemanWunschUtil.cs:45-78 | The score is the least number of single-character edits that turn one string into the other. Some script reaches it, and none does better. |
| Similarity.RatioInUnit | src/NeedlemanWunschUtil.cs:32-33 | A positive score no larger than the longer length divides it to a fraction in `(0, 1]`. |
| Similarity.SimilarityInRange | src/NeedlemanWunschUtil.cs:20-36 | The percentage lies in `[0, 100]` and equals 100 if and only if the strings are equal. |
| Similarity.SimilaritySymmetric | src/NeedlemanWunschUtil.cs:20-36 | Swapping the strings does not change the percentage. |
| Similarity.SimilarityExamplesKitten | test/NeedlemanWunschUtilTests.cs:51-52 | "kitten" against "sitting" gives exactly 400/7, within 0.001 of 57.1428. "kitten" against itself gives 100. |
| Similarity.SimilarityExamplesEmpty | test/NeedlemanWunschUtilTests.cs:48-50 | Two empty strings give 100. An empty string against a non-empty one gives 0. |
| Similarity.SimilarityExampleAbcDef | test/NeedlemanWunschUtilTests.cs:53 | "abc" against "def" gives 0. |
| Similarity.SimilarityExampleAbcdefAbc | test/NeedlemanWunschUtilTests.cs:54 | "abcdef" against "abc" gives 50. |
| Similarity.SimilarityExampleAbcAbcd | test/NeedlemanWunschUtilTests.cs:55 | "abc" against "abcd" gives 75. |

## Left out

- Scheduling under `Parallel.For` (`src/NeedlemanWunschUtil.cs:102-114`) is not modelled. The rows run one after another in increasing order. The source's rows read the row above from a shared buffer with no ordering between threads, so the racy interleavings are not modelled.
- Double precision is not modelled. The percentage is an exact `real`, so rounding in `double` and the tests' 0.001 tolerance are not modelled beyond the bound stated for the kitten pair.
- `CalculateSimilarityPercentage` is a method and not a function: it calls the engines, which are methods. It has no loop, and its result is specified by the function `Similarity.SimilarityPercentage`.
- Characters are Unicode scalar values, not UTF-16 code units. A `char` here is one UTF-16 code unit only for text inside the Basic Multilingual Plane. For strings with surrogate pairs (most emoji), C# counts two units per character where the model counts one, so distances and percentages differ from C#'s: "😀" against "😁" scores 1 of 2 units in C# (50%) but 1 of 1 character here (0%).
- 32-bit `int` is not modelled. Sizes and cells are unbounded integers, so overflow of the flat size `(m + 1) * (n + 1)` for very long strings is not modelled.
- Null strings are not modelled. The inputs are `seq<char>`. In the source, two null strings compare equal and give 100, and any other null input throws `NullReferenceException` at `.Length`.
- The invariants do not rely on C#'s zero-initialisation of new arrays. Only cells that have been written are ever read.
- The triangle inequality of the edit distance is not proved. The library neither relies on it nor promises it.
