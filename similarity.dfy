// Similarity matcher: the one-row Levenshtein program of StringEditDistance,
// the similarity ratio of GetStringSimimilarity and the key-length threshold
// used by GetAllWithName (main.ts:277-336).

module Similarity {
  import opened Text

  function Min(x: int, y: int): int { if x <= y then x else y }

  function Min3(x: int, y: int, z: int): int { Min(Min(x, y), z) }

  /** Levenshtein distance between the prefixes a[..i] and b[..j]: the
      textbook recurrence over deletion, insertion and substitution. */
  function Dist(a: string, b: string, i: nat, j: nat): nat
    requires i <= |a| && j <= |b|
    decreases i + j
  {
    if i == 0 then j
    else if j == 0 then i
    else Min3(Dist(a, b, i - 1, j) + 1,
              Dist(a, b, i, j - 1) + 1,
              Dist(a, b, i - 1, j - 1) + (if a[i - 1] == b[j - 1] then 0 else 1))
  }

  function Levenshtein(a: string, b: string): nat {
    Dist(a, b, |a|, |b|)
  }

  /** The distance StringEditDistance computes: case-insensitive Levenshtein. */
  function EditDistance(a: string, b: string): nat {
    Levenshtein(Lower(a), Lower(b))
  }

  /** Dropping the last character of b changes the distance by at most one. */
  lemma {:induction false} DistDropB(a: string, b: string, i: nat, j: nat)
    requires i <= |a| && 1 <= j <= |b|
    ensures Dist(a, b, i, j - 1) <= Dist(a, b, i, j) + 1
  {
    if i > 0 {
      DistDropB(a, b, i - 1, j);
      assert Dist(a, b, i, j - 1) <= Dist(a, b, i - 1, j - 1) + 1;
    }
  }

  /** Dropping the last character of a changes the distance by at most one. */
  lemma {:induction false} DistDropA(a: string, b: string, i: nat, j: nat)
    requires 1 <= i <= |a| && j <= |b|
    ensures Dist(a, b, i - 1, j) <= Dist(a, b, i, j) + 1
  {
    if j > 0 {
      DistDropA(a, b, i, j - 1);
      assert Dist(a, b, i - 1, j) <= Dist(a, b, i - 1, j - 1) + 1;
    }
  }

  /** When the last characters agree, the distance is that of the shorter
      prefixes: the shortcut the one-row program takes (main.ts:292). */
  lemma DistMatch(a: string, b: string, i: nat, j: nat)
    requires 1 <= i <= |a| && 1 <= j <= |b| && a[i - 1] == b[j - 1]
    ensures Dist(a, b, i, j) == Dist(a, b, i - 1, j - 1)
  {
    DistDropB(a, b, i - 1, j);
    DistDropA(a, b, i, j - 1);
  }

  lemma {:induction false} DistSelf(a: string, i: nat)
    requires i <= |a|
    ensures Dist(a, a, i, i) == 0
  {
    if i > 0 {
      DistSelf(a, i - 1);
      DistMatch(a, a, i, i);
    }
  }

  lemma {:induction false} DistZero(a: string, b: string, i: nat, j: nat)
    requires i <= |a| && j <= |b|
    requires Dist(a, b, i, j) == 0
    ensures i == j && a[..i] == b[..j]
  {
    if i > 0 && j > 0 {
      DistZero(a, b, i - 1, j - 1);
      assert a[..i] == a[..i - 1] + [a[i - 1]];
      assert b[..j] == b[..j - 1] + [b[j - 1]];
    }
  }

  /** The distance is at most the longer prefix length: substitute along
      the shorter one, then insert or delete the rest. */
  lemma {:induction false} DistUpper(a: string, b: string, i: nat, j: nat)
    requires i <= |a| && j <= |b|
    ensures Dist(a, b, i, j) <= (if i <= j then j else i)
  {
    if i > 0 && j > 0 {
      DistUpper(a, b, i - 1, j - 1);
    }
  }

  /** The distance is at least the difference of the prefix lengths. */
  lemma {:induction false} DistLower(a: string, b: string, i: nat, j: nat)
    requires i <= |a| && j <= |b|
    ensures (if i <= j then j - i else i - j) <= Dist(a, b, i, j)
    decreases i + j
  {
    if i > 0 && j > 0 {
      DistLower(a, b, i - 1, j);
      DistLower(a, b, i, j - 1);
      DistLower(a, b, i - 1, j - 1);
    }
  }

  /** The distance is zero exactly when the strings are equal. */
  lemma LevenshteinZeroIff(a: string, b: string)
    ensures Levenshtein(a, b) == 0 <==> a == b
  {
    if Levenshtein(a, b) == 0 {
      DistZero(a, b, |a|, |b|);
      assert a == a[..|a|] && b == b[..|b|];
    }
    if a == b {
      DistSelf(a, |a|);
    }
  }

  /** The distance lies between the length difference and the longer length. */
  lemma LevenshteinBounds(a: string, b: string)
    ensures (if |a| <= |b| then |b| - |a| else |a| - |b|) <= Levenshtein(a, b)
    ensures Levenshtein(a, b) <= (if |a| <= |b| then |b| else |a|)
  {
    DistLower(a, b, |a|, |b|);
    DistUpper(a, b, |a|, |b|);
  }

  /** The properties of StringEditDistance: empty arguments, case-insensitive
      equality and the bound by the longer length. */
  lemma EditDistanceProperties(a: string, b: string)
    ensures |a| == 0 ==> EditDistance(a, b) == |b|
    ensures |b| == 0 ==> EditDistance(a, b) == |a|
    ensures EditDistance(a, b) == 0 <==> Lower(a) == Lower(b)
    ensures EditDistance(a, b) <= (if |a| <= |b| then |b| else |a|)
  {
    LevenshteinZeroIff(Lower(a), Lower(b));
    LevenshteinBounds(Lower(a), Lower(b));
  }

  /** Row i of the table of the dynamic program: the distances from a[..i]
      to every prefix of b. */
  ghost function DistRow(a: string, b: string, i: nat): (r: seq<nat>)
    requires i <= |a|
    ensures |r| == |b| + 1
    ensures forall k :: 0 <= k <= |b| ==> r[k] == Dist(a, b, i, k)
  {
    seq(|b| + 1, k requires 0 <= k <= |b| => Dist(a, b, i, k))
  }

  /** How the code derives row i from row i - 1 (main.ts:287-296): the first
      entry is i; a matching pair of characters copies the diagonal entry,
      otherwise the least of the three neighbours plus one. */
  lemma {:induction false} RowRecurrence(a: string, b: string, i: nat)
    requires 1 <= i <= |a|
    ensures DistRow(a, b, i)[0] == i
    ensures forall j :: 1 <= j <= |b| ==>
      DistRow(a, b, i)[j] ==
        (if a[i - 1] != b[j - 1]
         then Min(Min(DistRow(a, b, i - 1)[j - 1], DistRow(a, b, i)[j - 1]), DistRow(a, b, i - 1)[j]) + 1
         else DistRow(a, b, i - 1)[j - 1])
  {
    forall j | 1 <= j <= |b|
      ensures DistRow(a, b, i)[j] ==
        (if a[i - 1] != b[j - 1]
         then Min(Min(DistRow(a, b, i - 1)[j - 1], DistRow(a, b, i)[j - 1]), DistRow(a, b, i - 1)[j]) + 1
         else DistRow(a, b, i - 1)[j - 1])
    {
      if a[i - 1] == b[j - 1] {
        DistMatch(a, b, i, j);
      }
    }
  }

  /** StringEditDistance (main.ts:277-304): one row of the dynamic program
      is kept in `costs` and overwritten row by row. */
  method StringEditDistance(a0: string, b0: string) returns (d: nat)
    ensures d == EditDistance(a0, b0)
  {
    var a := Lower(a0);
    var b := Lower(b0);
    var costs := new nat[|b| + 1];
    var i := 0;
    while i <= |a|
      invariant 0 <= i <= |a| + 1
      invariant i > 0 ==> costs[..] == DistRow(a, b, i - 1)
    {
      FillRow(a, b, costs, i);
      i := i + 1;
    }
    d := costs[|b|];
  }

  /** The body of the outer loop of StringEditDistance (main.ts:284-300): turns
      row i - 1 of the table, held in `costs`, into row i, while `lastValue`
      carries the entry to the left of the one being computed. */
  method FillRow(a: string, b: string, costs: array<nat>, i: nat)
    requires costs.Length == |b| + 1 && i <= |a|
    requires i > 0 ==> costs[..] == DistRow(a, b, i - 1)
    modifies costs
    ensures costs[..] == DistRow(a, b, i)
  {
    ghost var row := DistRow(a, b, i);
    ghost var up := if i > 0 then DistRow(a, b, i - 1) else row;
    if i > 0 {
      RowRecurrence(a, b, i);
    }
    var lastValue: nat := i;
    var j := 0;
    while j <= |b|
      invariant 0 <= j <= |b| + 1
      invariant i == 0 ==> forall k {:trigger costs[k]} :: 0 <= k < j ==> costs[k] == row[k]
      invariant j == 0 ==> lastValue == i
      invariant i > 0 && j > 0 ==> lastValue == row[j - 1]
      invariant i > 0 ==> forall k {:trigger costs[k]} :: 0 <= k <= |b| ==>
                            costs[k] == if k + 1 < j then row[k] else up[k]
    {
      if i == 0 {
        costs[j] := j;
      } else if j > 0 {
        assert costs[j - 1] == up[j - 1] && costs[j] == up[j];
        var newValue := costs[j - 1];
        if a[i - 1] != b[j - 1] {
          newValue := Min(Min(newValue, lastValue), costs[j]) + 1;
        }
        assert newValue == row[j];
        costs[j - 1] := lastValue;
        lastValue := newValue;
      }
      j := j + 1;
    }
    if i > 0 {
      costs[|b|] := lastValue;
    }
  }

  /** GetStringSimimilarity (main.ts:307-321). Both branches of the
      "longer"/"shorter" swap assign the same values, so the first argument is
      always the one whose length is the denominator. */
  function GetStringSimilarity(a: string, b: string): (r: real)
    ensures |a| == 0 ==> r == 1.0
  {
    var (longer, shorter) := if |a| < |b| then (a, b) else (a, b);
    var longerLength := |longer|;
    if longerLength == 0 then 1.0
    else (longerLength - EditDistance(longer, shorter)) as real / longerLength as real
  }

  /** Multiplying by a positive number keeps comparisons. */
  lemma ScaleCompare(q: real, c: real, m: real)
    requires m > 0.0
    ensures q <= c <==> q * m <= c * m
    ensures q == c <==> q * m == c * m
  {
    assert q * m - c * m == (q - c) * m;
    if q < c {
      assert (c - q) * m > 0.0;
    }
    if q > c {
      assert (q - c) * m > 0.0;
    }
  }

  /** The ratio (n - d) / n against the constants it is compared with. */
  lemma Ratio(n: nat, d: nat)
    requires n > 0
    ensures (n - d) as real / n as real <= 1.0
    ensures (n - d) as real / n as real == 1.0 <==> d == 0
    ensures (n - d) as real / n as real >= 0.0 <==> d <= n
    ensures (n - d) as real / n as real >= 0.9 <==> 10 * d <= n
  {
    var m := n as real;
    var p := (n - d) as real;
    DivCompare(p, 1.0, m);
    DivCompare(p, 0.0, m);
    DivCompare(p, 0.9, m);
    assert 1.0 * m == m && 0.0 * m == 0.0;
    assert p >= 0.9 * m <==> (10 * (n - d)) as real >= (9 * n) as real;
  }

  /** Dividing by a positive number keeps comparisons with a constant. */
  lemma DivCompare(p: real, c: real, m: real)
    requires m > 0.0
    ensures p / m <= c <==> p <= c * m
    ensures p / m == c <==> p == c * m
    ensures p / m >= c <==> p >= c * m
  {
    var q := p / m;
    assert q * m == p;
    ScaleCompare(q, c, m);
  }

  /** The similarity: 1 for an empty first argument; otherwise it never
      exceeds 1, reaches 1 exactly on case-insensitive equality, and is
      negative exactly when the distance exceeds the first length. */
  lemma SimilarityProperties(a: string, b: string)
    ensures GetStringSimilarity(a, b) <= 1.0
    ensures |a| > 0 ==> (GetStringSimilarity(a, b) == 1.0 <==> Lower(a) == Lower(b))
    ensures |a| > 0 ==> (GetStringSimilarity(a, b) < 0.0 <==> EditDistance(a, b) > |a|)
    ensures |b| <= |a| ==> 0.0 <= GetStringSimilarity(a, b)
  {
    EditDistanceProperties(a, b);
    if |a| > 0 {
      Ratio(|a|, EditDistance(a, b));
    }
  }

  lemma LowerSmall()
    ensures Lower("a") == "a" && Lower("ab") == "ab" && Lower("ba") == "ba" && Lower("bcd") == "bcd"
  {
  }

  /** Distances between the short strings of SimilarityNotSymmetric. */
  lemma DistSmall()
    ensures Levenshtein("a", "ab") == 1 && Levenshtein("ab", "a") == 1
  {
    DistOneMore("a", "ab");
    DistOneMore("ab", "a");
  }

  /** Two one- and two-character strings that agree on their first character
      are at distance one. */
  lemma DistOneMore(a: string, b: string)
    requires (|a| == 1 && |b| == 2) || (|a| == 2 && |b| == 1)
    requires a[0] == b[0]
    ensures Levenshtein(a, b) == 1
  {
    DistMatch(a, b, 1, 1);
    assert Dist(a, b, 1, 1) == 0;
  }

  /** The similarity is not symmetric: its denominator is always the length
      of the first argument, and it goes below 0 when the second argument is
      longer. */
  lemma SimilarityNotSymmetric()
    ensures GetStringSimilarity("a", "ab") == 0.0
    ensures GetStringSimilarity("ab", "a") == 0.5
    ensures GetStringSimilarity("a", "bcd") < 0.0
  {
    LowerSmall();
    DistSmall();
    DistLower("a", "bcd", 1, 3);
    Ratio(1, EditDistance("a", "bcd"));
  }

  /** Obsidian's Math.clamp(value, min, max) = Math.max(min, Math.min(max, value)). */
  function Clamp(x: real, lo: real, hi: real): real {
    var m := if hi < x then hi else x;
    if lo > m then lo else m
  }

  function Pow2(k: nat): nat {
    if k == 0 then 1 else 2 * Pow2(k - 1)
  }

  /** What is known of `Math.clamp(2.5 / Math.log2(n), 0.05, 0.9)` (main.ts:327)
      for keys of length n: log2(0) is -Infinity, giving the lower bound;
      log2(1) is 0, giving the upper bound; 2.5 / log2(n) is at least 0.9 up
      to n = 6 and decreases as n grows; at powers of two log2 is exact. */
  ghost predicate IsClampedLogThreshold(required: nat -> real) {
    && required(0) == 0.05
    && (forall n :: 1 <= n <= 6 ==> required(n) == 0.9)
    && (forall n :: 0.05 <= required(n) <= 0.9)
    && (forall m, n :: 1 <= m <= n ==> required(n) <= required(m))
    && (forall k :: 1 <= k ==> required(Pow2(k)) == Clamp(2.5 / k as real, 0.05, 0.9))
  }

  /** The filter condition of GetAllWithName: the key passes the threshold of its length. */
  predicate Accepts(required: nat -> real, key: string, query: string) {
    GetStringSimilarity(key, query) >= required(|key|)
  }

  /** With the log threshold, a key of one to six characters is accepted only
      by a case-insensitive exact match. */
  lemma ShortKeysNeedExactMatch(required: nat -> real, key: string, query: string)
    requires IsClampedLogThreshold(required)
    requires 1 <= |key| <= 6
    ensures Accepts(required, key, query) <==> Lower(key) == Lower(query)
  {
    EditDistanceProperties(key, query);
    Ratio(|key|, EditDistance(key, query));
  }

  /** Every accepted key has similarity at least the lower clamp bound, and
      any key whose similarity reaches the upper bound is accepted. */
  lemma ThresholdBounds(required: nat -> real, key: string, query: string)
    requires IsClampedLogThreshold(required)
    ensures Accepts(required, key, query) ==> GetStringSimilarity(key, query) >= 0.05
    ensures GetStringSimilarity(key, query) >= 0.9 ==> Accepts(required, key, query)
    ensures |key| == 0 ==> Accepts(required, key, query)
  {
  }
}
