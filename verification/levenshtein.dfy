/** Edit distance and the normalised similarity built on it, which the brand
    matcher uses to tolerate OCR errors: one misread character in words of
    four or more characters, two in words of seven or more. */
module Levenshtein {
  import opened Text

  function Min(x: nat, y: nat): nat {
    if x <= y then x else y
  }

  function Min3(x: nat, y: nat, z: nat): nat {
    Min(Min(x, y), z)
  }

  /** Levenshtein distance: the least number of single-character insertions,
      deletions and substitutions turning `a` into `b`, by the classic
      recurrence on the last characters (match or substitute, delete, insert). */
  function Distance(a: string, b: string): nat
    decreases |a| + |b|
  {
    if |a| == 0 then |b|
    else if |b| == 0 then |a|
    else
      var a', b' := a[..|a| - 1], b[..|b| - 1];
      var cost := if a[|a| - 1] == b[|b| - 1] then 0 else 1;
      Min3(Distance(a', b) + 1, Distance(a, b') + 1, Distance(a', b') + cost)
  }

  // ---------------------------------------------------------------------
  // Properties of the reference definition
  // ---------------------------------------------------------------------

  /** Dropping the last character of `a` lowers the distance by at most one */
  lemma DropLastOfLeft(a: string, b: string)
    requires |a| > 0
    ensures Distance(a, b) <= Distance(a[..|a| - 1], b) + 1
  {
  }

  /** Dropping the last character of `b` lowers the distance by at most one */
  lemma DropLastOfRight(a: string, b: string)
    requires |b| > 0
    ensures Distance(a, b) <= Distance(a, b[..|b| - 1]) + 1
  {
  }

  /** Dropping the last character of `b` raises the distance by at most one */
  lemma {:induction false} DropLastOfRightLower(a: string, b: string)
    requires |b| > 0
    ensures Distance(a, b[..|b| - 1]) <= Distance(a, b) + 1
    decreases |a|
  {
    if |a| > 0 {
      var a', b' := a[..|a| - 1], b[..|b| - 1];
      DropLastOfRightLower(a', b);
      DropLastOfLeft(a, b');
    }
  }

  /** Dropping the last character of `a` raises the distance by at most one */
  lemma {:induction false} DropLastOfLeftLower(a: string, b: string)
    requires |a| > 0
    ensures Distance(a[..|a| - 1], b) <= Distance(a, b) + 1
    decreases |b|
  {
    if |b| > 0 {
      var a', b' := a[..|a| - 1], b[..|b| - 1];
      DropLastOfLeftLower(a, b');
      DropLastOfRight(a', b);
    }
  }

  /** When the last characters agree, the distance is that of the two prefixes:
      the rolling-row loop takes the diagonal entry without comparing the others */
  lemma MatchTakesDiagonal(a: string, b: string)
    requires |a| > 0 && |b| > 0 && a[|a| - 1] == b[|b| - 1]
    ensures Distance(a, b) == Distance(a[..|a| - 1], b[..|b| - 1])
  {
    var a', b' := a[..|a| - 1], b[..|b| - 1];
    DropLastOfRightLower(a', b);
    DropLastOfLeftLower(a, b');
  }

  /** The distance is zero exactly for equal strings */
  lemma {:induction false} DistanceZeroIff(a: string, b: string)
    ensures Distance(a, b) == 0 <==> a == b
    decreases |a| + |b|
  {
    if |a| > 0 && |b| > 0 {
      var a', b' := a[..|a| - 1], b[..|b| - 1];
      DistanceZeroIff(a', b');
      if a == b {
        MatchTakesDiagonal(a, b);
      }
      if Distance(a, b) == 0 {
        assert a == a' + [a[|a| - 1]] && b == b' + [b[|b| - 1]];
      }
    }
  }

  /** The distance never exceeds the longer length, nor falls below the difference in lengths */
  lemma {:induction false} DistanceBounds(a: string, b: string)
    ensures Distance(a, b) <= if |a| < |b| then |b| else |a|
    ensures Distance(a, b) >= |a| - |b| && Distance(a, b) >= |b| - |a|
    decreases |a| + |b|
  {
    if |a| > 0 && |b| > 0 {
      var a', b' := a[..|a| - 1], b[..|b| - 1];
      DistanceBounds(a', b');
      DistanceBounds(a', b);
      DistanceBounds(a, b');
    }
  }

  /** Number of positions at which two equally long strings differ */
  function Mismatches(a: string, b: string): nat
    requires |a| == |b|
  {
    if |a| == 0 then 0
    else Mismatches(a[..|a| - 1], b[..|b| - 1]) + (if a[|a| - 1] == b[|b| - 1] then 0 else 1)
  }

  /** Substitutions alone suffice: for equally long strings the distance is at
      most the number of differing positions */
  lemma {:induction false} DistanceAtMostMismatches(a: string, b: string)
    requires |a| == |b|
    ensures Distance(a, b) <= Mismatches(a, b)
  {
    if |a| > 0 {
      DistanceAtMostMismatches(a[..|a| - 1], b[..|b| - 1]);
    }
  }

  /** Equally long strings that agree everywhere except at `k` differ in at most one position */
  lemma {:induction false} OneDifferenceMismatches(a: string, b: string, k: nat)
    requires |a| == |b| && k < |a|
    requires forall i :: 0 <= i < |a| && i != k ==> a[i] == b[i]
    ensures Mismatches(a, b) <= 1
  {
    var n := |a|;
    var a', b' := a[..n - 1], b[..n - 1];
    if k == n - 1 {
      assert a' == b';
      DistanceZeroIff(a', b');
      MismatchesOfEqual(a');
    } else {
      OneDifferenceMismatches(a', b', k);
    }
  }

  /** Equally long strings that agree everywhere except at `k1` and `k2` differ in at most two positions */
  lemma {:induction false} TwoDifferencesMismatches(a: string, b: string, k1: nat, k2: nat)
    requires |a| == |b| && k1 < |a| && k2 < |a|
    requires forall i :: 0 <= i < |a| && i != k1 && i != k2 ==> a[i] == b[i]
    ensures Mismatches(a, b) <= 2
  {
    var n := |a|;
    var a', b' := a[..n - 1], b[..n - 1];
    if k1 == n - 1 || k2 == n - 1 {
      var other := if k1 == n - 1 then k2 else k1;
      if other < n - 1 {
        OneDifferenceMismatches(a', b', other);
      } else {
        assert a' == b';
        MismatchesOfEqual(a');
      }
    } else {
      TwoDifferencesMismatches(a', b', k1, k2);
    }
  }

  lemma {:induction false} MismatchesOfEqual(a: string)
    ensures Mismatches(a, a) == 0
  {
    if |a| > 0 {
      MismatchesOfEqual(a[..|a| - 1]);
    }
  }

  // ---------------------------------------------------------------------
  // The rolling-row computation
  // ---------------------------------------------------------------------

  /** One cell of the table, in the form the rolling-row loop computes it */
  lemma DistanceStep(a: string, b: string, i: nat, j: nat)
    requires 0 < i <= |a| && 0 < j <= |b|
    ensures Distance(a[..i], b[..j]) ==
              if a[i - 1] == b[j - 1] then Distance(a[..i - 1], b[..j - 1])
              else Min(Min(Distance(a[..i - 1], b[..j - 1]), Distance(a[..i], b[..j - 1])),
                       Distance(a[..i - 1], b[..j])) + 1
  {
    var x, y := a[..i], b[..j];
    assert x[..|x| - 1] == a[..i - 1];
    assert y[..|y| - 1] == b[..j - 1];
    if a[i - 1] == b[j - 1] {
      MatchTakesDiagonal(x, y);
    }
  }

  /** `costs` holds row `i` of the table: entry `k` is the distance from the
      first `i` characters of `a` to the first `k` characters of `b` */
  predicate IsRow(a: string, b: string, i: nat, costs: seq<nat>)
    requires i <= |a|
  {
    |costs| == |b| + 1 && forall k :: 0 <= k <= |b| ==> costs[k] == Distance(a[..i], b[..k])
  }

  /** One pass of the outer loop of `editDistance`: the inner loop over `b`,
      then the store of the last entry. Row 0 is built by appending `j`; every
      later row is updated in place from the previous one. */
  method NextRow(a: string, b: string, i: nat, costs: seq<nat>) returns (row: seq<nat>)
    requires i <= |a|
    requires i == 0 ==> costs == []
    requires 0 < i ==> IsRow(a, b, i - 1, costs)
    ensures IsRow(a, b, i, row)
  {
    row := costs;
    var lastValue: nat := i;
    var j := 0;
    while j <= |b|
      invariant 0 <= j <= |b| + 1
      invariant i == 0 ==> |row| == j && forall k :: 0 <= k < j ==> row[k] == k
      invariant 0 < i ==> |row| == |b| + 1
      invariant 0 < i ==> lastValue == Distance(a[..i], b[..if j == 0 then 0 else j - 1])
      invariant 0 < i ==> forall k :: 0 <= k < j - 1 ==> row[k] == Distance(a[..i], b[..k])
      invariant 0 < i ==> forall k :: 0 <= k <= |b| && j - 1 <= k ==> row[k] == Distance(a[..i - 1], b[..k])
    {
      if i == 0 {
        row := row + [j];
      } else if j > 0 {
        DistanceStep(a, b, i, j);
        var newValue := row[j - 1];
        if a[i - 1] != b[j - 1] {
          newValue := Min(Min(newValue, lastValue), row[j]) + 1;
        }
        row := row[j - 1 := lastValue];
        lastValue := newValue;
      }
      j := j + 1;
    }
    if i > 0 {
      row := row[|b| := lastValue];
    }
  }

  /** `editDistance`: both strings are lower-cased, then one row of the
      dynamic-programming table is kept and updated in place, `lastValue`
      carrying the entry to the left of the one being computed. */
  method EditDistance(s1: string, s2: string) returns (d: nat)
    ensures d == Distance(Lower(s1), Lower(s2))
  {
    var a := Lower(s1);
    var b := Lower(s2);
    var costs: seq<nat> := [];
    var i := 0;
    while i <= |a|
      invariant 0 <= i <= |a| + 1
      invariant i == 0 ==> costs == []
      invariant 0 < i ==> IsRow(a, b, i - 1, costs)
    {
      costs := NextRow(a, b, i, costs);
      i := i + 1;
    }
    d := costs[|b|];
    assert a[..|a|] == a && b[..|b|] == b;
  }

  // ---------------------------------------------------------------------
  // Similarity
  // ---------------------------------------------------------------------

  /** A non-negative fraction num/den, den > 0: the exact value of the
      source's floating-point quotient */
  datatype Ratio = Ratio(num: nat, den: nat)

  /** `similarity`: (L - d) / L where L is the longer length and d the
      case-insensitive edit distance; 1 when both strings are empty. */
  function Similarity(s1: string, s2: string): (r: Ratio)
    ensures 0 < r.den && r.num <= r.den
    ensures r.num == r.den <==> Lower(s1) == Lower(s2)
    ensures |s1| == 0 && |s2| == 0 ==> r == Ratio(1, 1)
  {
    var longer, shorter := if |s1| < |s2| then s2 else s1, if |s1| < |s2| then s1 else s2;
    if |longer| == 0 then
      Ratio(1, 1)
    else
      var d := Distance(Lower(longer), Lower(shorter));
      DistanceBounds(Lower(longer), Lower(shorter));
      DistanceZeroIff(Lower(longer), Lower(shorter));
      Ratio(|longer| - d, |longer|)
  }

  /** `similarity` computed as the source does, through the rolling-row `editDistance` */
  method ComputeSimilarity(s1: string, s2: string) returns (r: Ratio)
    ensures r == Similarity(s1, s2)
  {
    var longer, shorter := s1, s2;
    if |s1| < |s2| {
      longer, shorter := s2, s1;
    }
    if |longer| == 0 {
      return Ratio(1, 1);
    }
    var d := EditDistance(longer, shorter);
    DistanceBounds(Lower(longer), Lower(shorter));
    r := Ratio(|longer| - d, |longer|);
  }

  /** `similarity(...) >= 0.7`, cross-multiplied */
  predicate ClearsThreshold(r: Ratio) {
    10 * r.num >= 7 * r.den
  }

  /** The fuzzy anchor test of the brand matcher */
  predicate FuzzyMatch(word: string, anchor: string) {
    ClearsThreshold(Similarity(word, anchor))
  }

  /** The threshold tolerates one misread character in any word of four or more letters */
  lemma OneMisreadClearsThreshold(word: string, anchor: string, k: nat)
    requires |word| == |anchor| >= 4 && k < |word|
    requires forall i :: 0 <= i < |word| && i != k ==> LowerChar(word[i]) == LowerChar(anchor[i])
    ensures FuzzyMatch(word, anchor)
  {
    var a, b := Lower(word), Lower(anchor);
    OneDifferenceMismatches(a, b, k);
    DistanceAtMostMismatches(a, b);
  }

  /** Two misread characters still clear the threshold once the word has seven or more letters */
  lemma TwoMisreadsClearThreshold(word: string, anchor: string, k1: nat, k2: nat)
    requires |word| == |anchor| >= 7 && k1 < |word| && k2 < |word|
    requires forall i :: 0 <= i < |word| && i != k1 && i != k2 ==> LowerChar(word[i]) == LowerChar(anchor[i])
    ensures FuzzyMatch(word, anchor)
  {
    var a, b := Lower(word), Lower(anchor);
    TwoDifferencesMismatches(a, b, k1, k2);
    DistanceAtMostMismatches(a, b);
  }

  /** An anchor of six or fewer characters is not matched by a word that lost two of them */
  lemma TwoDropsMissThreshold(word: string, anchor: string)
    requires |anchor| <= 6 && |word| + 2 == |anchor|
    ensures !FuzzyMatch(word, anchor)
  {
    DistanceBounds(Lower(anchor), Lower(word));
  }

  /** An anchor of three or fewer characters is matched only exactly (up to case)
      by a word no longer than it: one misread character already fails */
  lemma ShortAnchorNeedsExactWord(word: string, anchor: string)
    requires |word| <= |anchor| <= 3 && Lower(word) != Lower(anchor)
    ensures !FuzzyMatch(word, anchor)
  {
  }

  /** The OCR misreading of KROGER with a zero for the O still counts as the anchor */
  lemma KrogerMisreadMatches()
    ensures FuzzyMatch("KR0GER", "KROGER")
  {
    OneMisreadClearsThreshold("KR0GER", "KROGER", 2);
  }
}
