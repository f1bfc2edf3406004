/**
 * ASCII case-insensitive string comparison, as `strcasecmp` and `sqlite3_stricmp` perform it
 * in the C locale: both strings are compared character by character after lower-casing, and a
 * proper prefix sorts before the longer string. Only the sign of the C result is ever used, so
 * `Compare` returns -1, 0 or 1.
 */
module CaseInsensitive {

  /** `tolower` on one character: only 'A'..'Z' change. */
  function Lower(c: char): char {
    if 'A' <= c <= 'Z' then (c as int + 32) as char else c
  }

  /** The string with every character lower-cased. */
  function LowerAll(s: string): (r: string)
    ensures |r| == |s|
    ensures forall i :: 0 <= i < |s| ==> r[i] == Lower(s[i])
  {
    if |s| == 0 then [] else [Lower(s[0])] + LowerAll(s[1..])
  }

  /** The sign of `strcasecmp(a, b)`. */
  function Compare(a: string, b: string): (r: int)
    ensures -1 <= r <= 1
  {
    if |a| == 0 && |b| == 0 then 0
    else if |a| == 0 then -1
    else if |b| == 0 then 1
    else if Lower(a[0]) < Lower(b[0]) then -1
    else if Lower(b[0]) < Lower(a[0]) then 1
    else Compare(a[1..], b[1..])
  }

  /** `strcasecmp(a, b) == 0`. */
  predicate EqualsIgnoreCase(a: string, b: string) {
    Compare(a, b) == 0
  }

  /** Two strings compare equal exactly when their lower-cased forms are identical. */
  lemma {:induction false} CompareZeroIffSameLowered(a: string, b: string)
    ensures Compare(a, b) == 0 <==> LowerAll(a) == LowerAll(b)
  {
    if |a| == 0 || |b| == 0 {
    } else {
      CompareZeroIffSameLowered(a[1..], b[1..]);
      assert LowerAll(a) == [Lower(a[0])] + LowerAll(a[1..]);
      assert LowerAll(b) == [Lower(b[0])] + LowerAll(b[1..]);
      if LowerAll(a) == LowerAll(b) {
        assert Lower(a[0]) == LowerAll(a)[0];
        assert LowerAll(a[1..]) == LowerAll(a)[1..];
        assert LowerAll(b[1..]) == LowerAll(b)[1..];
      }
    }
  }

  /** Swapping the arguments negates the result. */
  lemma {:induction false} CompareAntisymmetric(a: string, b: string)
    ensures Compare(a, b) == -Compare(b, a)
  {
    if |a| > 0 && |b| > 0 && Lower(a[0]) == Lower(b[0]) {
      CompareAntisymmetric(a[1..], b[1..]);
    }
  }

  /** Every string compares equal to itself. */
  lemma {:induction false} CompareReflexive(a: string)
    ensures Compare(a, a) == 0
  {
    if |a| > 0 {
      CompareReflexive(a[1..]);
    }
  }

  /** "Compares at least" is transitive, so a list whose neighbours are in order is ordered throughout. */
  lemma {:induction false} CompareTransitive(a: string, b: string, c: string)
    requires Compare(a, b) >= 0 && Compare(b, c) >= 0
    ensures Compare(a, c) >= 0
  {
    if |a| > 0 && |b| > 0 && |c| > 0
       && Lower(a[0]) == Lower(b[0]) && Lower(b[0]) == Lower(c[0]) {
      CompareTransitive(a[1..], b[1..], c[1..]);
    }
  }
}
