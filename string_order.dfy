/**
 * The order on strings the listing operations sort by: Java's
 * String.compareTo, lexicographic over characters, where a proper prefix
 * comes first. Numeric-looking strings are NOT compared as numbers.
 */
module StringOrder {

  /**
   * String.compareTo: the difference of the first pair of characters that
   * differ, or the difference of the lengths when one string is a prefix of
   * the other. Only the sign matters to a sort; it is zero exactly on equal
   * strings.
   */
  function Compare(a: string, b: string): (r: int)
    ensures r == 0 <==> a == b
  {
    if a == [] || b == [] then |a| - |b|
    else if a[0] != b[0] then a[0] as int - b[0] as int
    else
      assert a == [a[0]] + a[1..] && b == [b[0]] + b[1..];
      Compare(a[1..], b[1..])
  }

  /**
   * Reference definition of "a comes strictly before b": a is a proper
   * prefix of b, or at the first position where they differ a has the
   * smaller character.
   */
  ghost predicate LexLess(a: string, b: string)
  {
    || (|a| < |b| && a == b[..|a|])
    || exists k :: 0 <= k < |a| && k < |b| && a[..k] == b[..k] && a[k] < b[k]
  }

  /** Compare is negative exactly when a precedes b lexicographically. */
  lemma {:induction false} CompareNegativeIffLexLess(a: string, b: string)
    ensures Compare(a, b) < 0 <==> LexLess(a, b)
  {
    if a == [] {
      assert |b| > 0 ==> a == b[..0];
    } else if b == [] {
    } else if a[0] != b[0] {
      LexLessAtFirstDifference(a, b);
    } else {
      CompareNegativeIffLexLess(a[1..], b[1..]);
      LexLessCommonHead(a, b);
    }
  }

  /** When the first characters differ, they alone decide LexLess. */
  lemma LexLessAtFirstDifference(a: string, b: string)
    requires a != [] && b != [] && a[0] != b[0]
    ensures LexLess(a, b) <==> a[0] < b[0]
  {
    if a[0] < b[0] {
      assert a[..0] == b[..0];
    }
  }

  /** A common first character does not change LexLess. */
  lemma LexLessCommonHead(a: string, b: string)
    requires a != [] && b != [] && a[0] == b[0]
    ensures LexLess(a, b) <==> LexLess(a[1..], b[1..])
  {
    if LexLess(a[1..], b[1..]) {
      LexLessFromTail(a, b);
    }
    if LexLess(a, b) {
      LexLessToTail(a, b);
    }
  }

  lemma LexLessFromTail(a: string, b: string)
    requires a != [] && b != [] && a[0] == b[0]
    requires LexLess(a[1..], b[1..])
    ensures LexLess(a, b)
  {
    var a', b' := a[1..], b[1..];
    if |a'| < |b'| && a' == b'[..|a'|] {
      assert b[..|a|] == [b[0]] + b'[..|a'|];
      assert a == [a[0]] + a';
    } else {
      var k :| 0 <= k < |a'| && k < |b'| && a'[..k] == b'[..k] && a'[k] < b'[k];
      assert a[..k + 1] == [a[0]] + a'[..k];
      assert b[..k + 1] == [b[0]] + b'[..k];
      assert a[k + 1] == a'[k] && b[k + 1] == b'[k];
    }
  }

  lemma LexLessToTail(a: string, b: string)
    requires a != [] && b != [] && a[0] == b[0]
    requires LexLess(a, b)
    ensures LexLess(a[1..], b[1..])
  {
    var a', b' := a[1..], b[1..];
    if |a| < |b| && a == b[..|a|] {
      assert a' == a[1..] == b[..|a|][1..] == b'[..|a'|];
    } else {
      var k :| 0 <= k < |a| && k < |b| && a[..k] == b[..k] && a[k] < b[k];
      assert k != 0;
      assert a'[..k - 1] == a[..k][1..] == b[..k][1..] == b'[..k - 1];
      assert a'[k - 1] == a[k] && b'[k - 1] == b[k];
    }
  }

  /** Swapping the arguments negates the result. */
  lemma {:induction false} CompareAntisymmetric(a: string, b: string)
    ensures Compare(b, a) == -Compare(a, b)
  {
    if a == [] || b == [] {
    } else if a[0] != b[0] {
    } else {
      CompareAntisymmetric(a[1..], b[1..]);
    }
  }

  /** "Not after" is transitive. */
  lemma {:induction false} CompareTransitive(a: string, b: string, c: string)
    requires Compare(a, b) <= 0 && Compare(b, c) <= 0
    ensures Compare(a, c) <= 0
  {
    if a == [] || b == [] || c == [] {
    } else if a[0] != b[0] || b[0] != c[0] {
    } else {
      CompareTransitive(a[1..], b[1..], c[1..]);
    }
  }

  /** A common prefix does not change the comparison. */
  lemma {:induction false} CompareCommonPrefix(p: string, a: string, b: string)
    ensures Compare(p + a, p + b) == Compare(a, b)
  {
    if p == [] {
      assert p + a == a && p + b == b;
    } else {
      assert (p + a)[1..] == p[1..] + a;
      assert (p + b)[1..] == p[1..] + b;
      CompareCommonPrefix(p[1..], a, b);
    }
  }

  /** Two strings that are each not after the other are equal. */
  lemma CompareBothWaysEqual(a: string, b: string)
    requires Compare(a, b) <= 0 && Compare(b, a) <= 0
    ensures a == b
  {
    CompareAntisymmetric(a, b);
  }
}
