/** The `similarity` score of src/background/background.ts:53-81: an edit-distance ratio
    computed with one rolling row of costs. The code reads the distance from the
    second-to-last cell of the final row, so the score compares the shorter string with the
    longer one WITHOUT its last character; the model keeps that behaviour. */
module Similarity {
  import opened Levenshtein

  /** The length of `longer`: the first argument when strictly longer, else the second. */
  function LongerLength(s1: string, s2: string): (n: nat)
    ensures n >= |s1| && n >= |s2| && (n == |s1| || n == |s2|)
  {
    if |s1| > |s2| then |s1| else |s2|
  }

  /** The distance the source divides by, read from `costs[longer.length - 1]`: from
      `shorter` to `longer` without its last character. On equal lengths `longer` is s2. */
  function Distance(s1: string, s2: string): nat
    requires LongerLength(s1, s2) > 0
  {
    if |s1| > |s2| then Lev(s2, Init(s1)) else Lev(s1, Init(s2))
  }

  /** The value `similarity(s1, s2)` returns, as an exact rational. */
  function Score(s1: string, s2: string): real
  {
    var n := LongerLength(s1, s2);
    if n == 0 then 1.0 else (n - Distance(s1, s2)) as real / n as real
  }

  /** `similarity(s1, s2)`: picks `longer` and `shorter`, answers 1 when both are empty,
      and otherwise divides by the longer length after running the rolling-row program. */
  method ComputeSimilarity(s1: string, s2: string) returns (r: real)
    ensures r == Score(s1, s2)
  {
    var longer := if |s1| > |s2| then s1 else s2;
    var shorter := if |s1| > |s2| then s2 else s1;
    if |longer| == 0 {
      return 1.0;
    }
    var costs := LastRow(shorter, longer);
    assert longer[..|longer| - 1] == Init(longer);
    r := (|longer| - costs[|longer| - 1]) as real / |longer| as real;
  }

  /** The rolling-row dynamic program: after pass i, `costs[k]` is the distance from
      shorter[..i] to longer[..k]. The result is the row after the last pass. */
  method LastRow(shorter: string, longer: string) returns (costs: array<nat>)
    ensures costs.Length == |longer| + 1
    ensures forall k :: 0 <= k <= |longer| ==> costs[k] == Lev(shorter, longer[..k])
  {
    costs := new nat[|longer| + 1];
    var i := 0;
    while i <= |shorter|
      invariant 0 <= i <= |shorter| + 1
      invariant i > 0 ==> forall k :: 0 <= k <= |longer| ==> costs[k] == Lev(shorter[..i - 1], longer[..k])
    {
      RowPass(costs, shorter, longer, i);
      i := i + 1;
    }
    assert shorter[..|shorter|] == shorter;
  }

  /** One pass of the outer loop: turns row i - 1 into row i in place. `lastValue` carries
      the new cell to the left while `costs[j - 1]` is overwritten one step behind, and the
      last cell is written after the inner loop. Pass 0 fills in the first row. */
  method RowPass(costs: array<nat>, shorter: string, longer: string, i: nat)
    requires costs.Length == |longer| + 1 && i <= |shorter|
    requires i > 0 ==> forall k :: 0 <= k <= |longer| ==> costs[k] == Lev(shorter[..i - 1], longer[..k])
    modifies costs
    ensures forall k :: 0 <= k <= |longer| ==> costs[k] == Lev(shorter[..i], longer[..k])
  {
    var lastValue: nat := i;
    var j := 0;
    while j <= |longer|
      invariant 0 <= j <= |longer| + 1
      invariant PassState(costs, shorter, longer, i, j, lastValue)
    {
      lastValue := InnerStep(costs, shorter, longer, i, j, lastValue);
      j := j + 1;
    }
    if i > 0 {
      costs[|longer|] := lastValue;
    } else {
      assert shorter[..0] == [];
    }
  }

  /** Where pass i stands after the inner loop has visited columns 0 .. j - 1. Pass 0 has
      written k into cell k. A later pass has moved row i into cells 0 .. j - 2, one step
      behind, still holds row i - 1 from cell j - 1 on, and carries the row-i entry of
      column j - 1 (the initial i before the first column). */
  ghost predicate PassState(costs: array<nat>, shorter: string, longer: string, i: nat, j: nat, lastValue: nat)
    reads costs
    requires costs.Length == |longer| + 1 && i <= |shorter| && j <= |longer| + 1
  {
    if i == 0 then
      forall k :: 0 <= k < j ==> costs[k] == k
    else
      (forall k :: 0 <= k < j - 1 ==> costs[k] == Lev(shorter[..i], longer[..k]))
      && (forall k :: j - 1 <= k <= |longer| && 0 <= k ==> costs[k] == Lev(shorter[..i - 1], longer[..k]))
      && lastValue == if j == 0 then i else Lev(shorter[..i], longer[..j - 1])
  }

  /** The body of the inner loop for column j. */
  method InnerStep(costs: array<nat>, shorter: string, longer: string, i: nat, j: nat, lastValue: nat)
    returns (carried: nat)
    requires costs.Length == |longer| + 1 && i <= |shorter| && j <= |longer|
    requires PassState(costs, shorter, longer, i, j, lastValue)
    modifies costs
    ensures PassState(costs, shorter, longer, i, j + 1, carried)
  {
    carried := lastValue;
    if i == 0 {
      costs[j] := j;
    } else if j > 0 {
      CellStep(shorter, longer, i, j);
      var newValue := costs[j - 1];
      if shorter[i - 1] != longer[j - 1] {
        newValue := Min(Min(newValue, lastValue), costs[j]) + 1;
      }
      costs[j - 1] := lastValue;
      carried := newValue;
    }
  }

  /** One cell of the table from its three neighbours, in the form the source computes it. */
  lemma CellStep(a: string, b: string, i: nat, j: nat)
    requires 0 < i <= |a| && 0 < j <= |b|
    ensures Lev(a[..i], b[..j]) ==
      if a[i - 1] == b[j - 1] then Lev(a[..i - 1], b[..j - 1])
      else Min(Min(Lev(a[..i - 1], b[..j - 1]), Lev(a[..i], b[..j - 1])), Lev(a[..i - 1], b[..j])) + 1
  {
    assert Init(a[..i]) == a[..i - 1];
    assert Init(b[..j]) == b[..j - 1];
    if a[i - 1] == b[j - 1] {
      LevLastEqual(a[..i], b[..j]);
    }
  }

  /** A fraction m / n with 0 <= m <= n lies in [0, 1] and is 1 only when m == n. */
  lemma Ratio(m: int, n: int)
    requires 0 <= m <= n && n > 0
    ensures 0.0 <= m as real / n as real <= 1.0
    ensures m as real / n as real == 1.0 <==> m == n
  {
    var q := m as real / n as real;
    assert q * n as real == m as real;
  }

  /** The score is a ratio in [0, 1]: the distance never exceeds the longer length. */
  lemma ScoreInUnitRange(s1: string, s2: string)
    ensures 0.0 <= Score(s1, s2) <= 1.0
  {
    var n := LongerLength(s1, s2);
    if n > 0 {
      if |s1| > |s2| { LevUpperBound(s2, Init(s1)); } else { LevUpperBound(s1, Init(s2)); }
      Ratio(n - Distance(s1, s2), n);
    }
  }

  /** The score is 1 exactly when both strings are empty or the shorter one equals the
      longer one without its last character; in particular two equal non-empty strings
      never score 1. */
  lemma ScoreOneIff(s1: string, s2: string)
    ensures Score(s1, s2) == 1.0 <==>
      if |s1| > |s2| then s2 == Init(s1) else s1 == s2 == [] || (|s2| > 0 && s1 == Init(s2))
  {
    var n := LongerLength(s1, s2);
    if n > 0 {
      if |s1| > |s2| {
        LevZeroIff(s2, Init(s1));
        LevUpperBound(s2, Init(s1));
      } else {
        LevZeroIff(s1, Init(s2));
        LevUpperBound(s1, Init(s2));
      }
      Ratio(n - Distance(s1, s2), n);
    }
  }

  /** A non-empty string compared with itself scores (n - 1) / n. */
  lemma ScoreSelf(s: string)
    requires |s| > 0
    ensures Score(s, s) == (|s| - 1) as real / |s| as real
  {
    LevDropOne(s);
  }

  /** Identical strings do not score 1, and an empty string scores 1 against a single
      character. */
  lemma ScoreExamples()
    ensures Score("abc", "abc") == 2.0 / 3.0
    ensures Score(" ", " ") == 0.0
    ensures Score("", "x") == 1.0
    ensures Score("", "") == 1.0
  {
    ScoreSelf("abc");
    ScoreSelf(" ");
    assert Init("x") == [];
  }

  /** The score is not symmetric: swapping the arguments changes which string's last
      character is dropped. */
  lemma ScoreNotSymmetric()
    ensures Score("ab", "bb") == 0.5
    ensures Score("bb", "ab") == 0.0
  {
    DistanceNotSymmetric();
  }

  lemma DistanceNotSymmetric()
    ensures Distance("ab", "bb") == 1
    ensures Distance("bb", "ab") == 2
  {
    assert Init("bb") == "b" && Init("ab") == "a";
    assert Lev("ab", "b") == 1;
    assert Lev("bb", "a") == 2;
  }
}
