/** Edit distance between two strings: the reference definition the rolling-row
    dynamic program of `similarity` (src/background/background.ts) is proved against. */
module Levenshtein {

  function Min(x: nat, y: nat): (r: nat)
    ensures r <= x && r <= y && (r == x || r == y)
  {
    if x <= y then x else y
  }

  /** Drops the last element of a non-empty string. */
  function Init(s: string): (r: string)
    requires |s| > 0
    ensures |r| == |s| - 1 && r == s[..|s| - 1]
  {
    s[..|s| - 1]
  }

  /** The Levenshtein distance: insertion, deletion and substitution each cost 1.
      The recurrence works on the last characters, as the dynamic program does:
      Lev(a, b) is the entry for row |a| and column |b|. */
  function Lev(a: string, b: string): nat
    decreases |a| + |b|
  {
    if |a| == 0 then |b|
    else if |b| == 0 then |a|
    else
      var substitute := Lev(Init(a), Init(b)) + (if a[|a| - 1] == b[|b| - 1] then 0 else 1);
      Min(Min(substitute, Lev(a, Init(b)) + 1), Lev(Init(a), b) + 1)
  }

  /** One column to the left costs at most one more edit (delete the last character of b). */
  lemma LevDropLastOfSecond(a: string, b: string)
    requires |b| > 0
    ensures Lev(a, b) <= Lev(a, Init(b)) + 1
  {
  }

  /** One row up costs at most one more edit (delete the last character of a). */
  lemma LevDropLastOfFirst(a: string, b: string)
    requires |a| > 0
    ensures Lev(a, b) <= Lev(Init(a), b) + 1
  {
  }

  /** Removing the last character of `a` lowers the distance to `b` by at most one. */
  lemma {:induction false} LevInitFirstBound(a: string, b: string)
    requires |a| > 0
    ensures Lev(Init(a), b) <= Lev(a, b) + 1
    decreases |b|
  {
    if |b| == 0 {
    } else if |a| == 1 {
      assert Init(a) == [];
      LevLowerBound(a, b);
    } else {
      var s := Lev(Init(a), Init(b)) + (if a[|a| - 1] == b[|b| - 1] then 0 else 1);
      if Lev(a, b) == Lev(a, Init(b)) + 1 {
        LevInitFirstBound(a, Init(b));
        LevDropLastOfSecond(Init(a), b);
      } else if Lev(a, b) == s {
        LevDropLastOfSecond(Init(a), b);
      }
    }
  }

  /** Removing the last character of `b` lowers the distance from `a` by at most one. */
  lemma {:induction false} LevInitSecondBound(a: string, b: string)
    requires |b| > 0
    ensures Lev(a, Init(b)) <= Lev(a, b) + 1
  {
    LevSymmetric(a, b);
    LevSymmetric(a, Init(b));
    LevInitFirstBound(b, a);
  }

  /** When the last characters agree the distance is the diagonal entry: the shortcut
      the source takes at src/background/background.ts:68-71. */
  lemma LevLastEqual(a: string, b: string)
    requires |a| > 0 && |b| > 0 && a[|a| - 1] == b[|b| - 1]
    ensures Lev(a, b) == Lev(Init(a), Init(b))
  {
    LevInitFirstBound(a, Init(b));
    LevInitSecondBound(Init(a), b);
  }

  /** The distance never drops below the difference of the lengths. */
  lemma {:induction false} LevLowerBound(a: string, b: string)
    ensures Lev(a, b) >= |a| - |b| && Lev(a, b) >= |b| - |a|
    decreases |a| + |b|
  {
    if |a| > 0 && |b| > 0 {
      LevLowerBound(Init(a), Init(b));
      LevLowerBound(a, Init(b));
      LevLowerBound(Init(a), b);
    }
  }

  /** The distance never exceeds the length of the longer string. */
  lemma {:induction false} LevUpperBound(a: string, b: string)
    ensures Lev(a, b) <= if |a| >= |b| then |a| else |b|
    decreases |a| + |b|
  {
    if |a| > 0 && |b| > 0 {
      LevUpperBound(Init(a), Init(b));
    }
  }

  lemma {:induction false} LevSymmetric(a: string, b: string)
    ensures Lev(a, b) == Lev(b, a)
    decreases |a| + |b|
  {
    if |a| > 0 && |b| > 0 {
      LevSymmetric(Init(a), Init(b));
      LevSymmetric(a, Init(b));
      LevSymmetric(Init(a), b);
    }
  }

  /** The distance is zero exactly between equal strings. */
  lemma {:induction false} LevZeroIff(a: string, b: string)
    ensures Lev(a, b) == 0 <==> a == b
    decreases |a| + |b|
  {
    if |a| > 0 && |b| > 0 {
      LevZeroIff(Init(a), Init(b));
      assert a == Init(a) + [a[|a| - 1]];
      assert b == Init(b) + [b[|b| - 1]];
    }
  }

  /** A string is one edit away from itself without its last character. */
  lemma {:induction false} LevDropOne(a: string)
    requires |a| > 0
    ensures Lev(a, Init(a)) == 1
  {
    LevLowerBound(a, Init(a));
    LevZeroIff(Init(a), Init(a));
    LevDropLastOfFirst(a, Init(a));
  }
}
