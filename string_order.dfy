/**
 * Python's ordering of `str` values: lexicographic on code points, where a
 * proper prefix is smaller than the longer string.
 */
module StringOrder {

  /** `a < b` on Python strings. */
  predicate LexLess(a: string, b: string)
  {
    if a == [] then b != []
    else if b == [] then false
    else a[0] < b[0] || (a[0] == b[0] && LexLess(a[1..], b[1..]))
  }

  lemma {:induction false} LexLessIrreflexive(a: string)
    ensures !LexLess(a, a)
  {
    if a != [] {
      LexLessIrreflexive(a[1..]);
    }
  }

  /**
   * Comparing two concatenations whose first parts have the same length:
   * the first parts decide, and only when they are equal do the second parts.
   */
  lemma {:induction false} LexLessConcat(a: string, b: string, s: string, t: string)
    requires |a| == |b|
    ensures LexLess(a + s, b + t) <==> LexLess(a, b) || (a == b && LexLess(s, t))
  {
    if a == [] {
      assert a + s == s && b + t == t;
    } else {
      assert (a + s)[0] == a[0] && (b + t)[0] == b[0];
      assert (a + s)[1..] == a[1..] + s && (b + t)[1..] == b[1..] + t;
      LexLessConcat(a[1..], b[1..], s, t);
      if a[0] == b[0] {
        assert a == b <==> a[1..] == b[1..] by {
          if a[1..] == b[1..] {
            assert a == [a[0]] + a[1..] && b == [b[0]] + b[1..];
          }
        }
      }
    }
  }

  /** A common prefix does not change the comparison. */
  lemma LexLessCommonPrefix(p: string, s: string, t: string)
    ensures LexLess(p + s, p + t) <==> LexLess(s, t)
  {
    LexLessConcat(p, p, s, t);
    LexLessIrreflexive(p);
  }

  /** A strict difference in equal-length heads survives any tails. */
  lemma LexLessAppend(a: string, b: string, s: string, t: string)
    requires |a| == |b| && LexLess(a, b)
    ensures LexLess(a + s, b + t)
  {
    LexLessConcat(a, b, s, t);
  }
}
