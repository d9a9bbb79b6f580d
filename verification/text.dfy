/** String operations of java.lang.String that the browser core relies on.
    Strings are sequences of characters; Java compares them by code unit. */
module Text {

  /** `s.startsWith(prefix)` */
  predicate StartsWith(s: string, prefix: string)
  {
    |prefix| <= |s| && s[..|prefix|] == prefix
  }

  /** `s.endsWith(suffix)` */
  predicate EndsWith(s: string, suffix: string)
  {
    |suffix| <= |s| && s[|s| - |suffix|..] == suffix
  }

  /** `s.lastIndexOf(c)`: the position of the last occurrence of `c`, or -1. */
  function LastIndexOf(s: string, c: char): (k: int)
    ensures -1 <= k < |s|
    ensures k >= 0 ==> s[k] == c
    ensures forall i :: k < i < |s| ==> s[i] != c
  {
    if |s| == 0 then -1
    else if s[|s| - 1] == c then |s| - 1
    else LastIndexOf(s[..|s| - 1], c)
  }

  /** The last occurrence is the one position holding `c` with no `c` after it. */
  lemma LastIndexOfAt(s: string, c: char, k: int)
    requires 0 <= k < |s| && s[k] == c
    requires forall i :: k < i < |s| ==> s[i] != c
    ensures LastIndexOf(s, c) == k
  {
  }

  /** `x.compareTo(y)`: the difference of the first characters that differ,
      or else the difference of the lengths. It is zero exactly on equal
      strings. */
  function CompareNames(x: string, y: string): (r: int)
    ensures r == 0 <==> x == y
  {
    if |x| == 0 || |y| == 0 then |x| - |y|
    else if x[0] != y[0] then x[0] as int - y[0] as int
    else
      assert x == [x[0]] + x[1..] && y == [y[0]] + y[1..];
      CompareNames(x[1..], y[1..])
  }

  /** Swapping the arguments of compareTo negates the result. */
  lemma {:induction false} CompareNamesAntisymmetric(x: string, y: string)
    ensures CompareNames(y, x) == -CompareNames(x, y)
  {
    if |x| != 0 && |y| != 0 && x[0] == y[0] {
      CompareNamesAntisymmetric(x[1..], y[1..]);
    }
  }

  /** "at most" under compareTo is transitive. */
  lemma {:induction false} CompareNamesTransitive(x: string, y: string, z: string)
    requires CompareNames(x, y) <= 0 && CompareNames(y, z) <= 0
    ensures CompareNames(x, z) <= 0
  {
    if |x| != 0 && |y| != 0 && |z| != 0 && x[0] == y[0] && y[0] == z[0] {
      CompareNamesTransitive(x[1..], y[1..], z[1..]);
    }
  }
}
