/**
 * How SQLite compares TEXT values under its default BINARY collation:
 * character by character from the left, a proper prefix sorting first. For
 * the ASCII text stored here this is the order of the characters' code points.
 */
module TextOrder {

  /** Strict comparison `a < b` of two TEXT values. */
  predicate TextLess(a: string, b: string)
    decreases |a|
  {
    if |a| == 0 then |b| > 0
    else if |b| == 0 then false
    else if a[0] != b[0] then a[0] < b[0]
    else TextLess(a[1..], b[1..])
  }

  /** `a <= b`, the comparison `BETWEEN` makes at each end. */
  predicate TextLeq(a: string, b: string) {
    a == b || TextLess(a, b)
  }

  lemma {:induction false} TextLessIrreflexive(a: string)
    ensures !TextLess(a, a)
    decreases |a|
  {
    if |a| > 0 {
      TextLessIrreflexive(a[1..]);
    }
  }

  lemma {:induction false} TextLessAsymmetric(a: string, b: string)
    requires TextLess(a, b)
    ensures !TextLess(b, a)
    decreases |a|
  {
    if |a| > 0 && |b| > 0 && a[0] == b[0] {
      TextLessAsymmetric(a[1..], b[1..]);
    }
  }

  lemma {:induction false} TextLessTransitive(a: string, b: string, c: string)
    requires TextLess(a, b) && TextLess(b, c)
    ensures TextLess(a, c)
    decreases |a|
  {
    if |a| > 0 && a[0] == b[0] && b[0] == c[0] {
      TextLessTransitive(a[1..], b[1..], c[1..]);
    }
  }

  /** Any two TEXT values are equal or ordered one way or the other. */
  lemma {:induction false} TextLessTotal(a: string, b: string)
    ensures a == b || TextLess(a, b) || TextLess(b, a)
    decreases |a|
  {
    if |a| > 0 && |b| > 0 && a[0] == b[0] {
      TextLessTotal(a[1..], b[1..]);
      if a[1..] == b[1..] {
        assert a == [a[0]] + a[1..] && b == [b[0]] + b[1..];
      }
    }
  }

  lemma TextLeqTransitive(a: string, b: string, c: string)
    requires TextLeq(a, b) && TextLeq(b, c)
    ensures TextLeq(a, c)
  {
    if a != b && b != c {
      TextLessTransitive(a, b, c);
    }
  }

  /** Comparing two concatenations whose first parts have equal length compares
      the first parts, and the second parts only when the first parts agree. */
  lemma {:induction false} TextLessAppend(a1: string, b1: string, a2: string, b2: string)
    requires |a1| == |a2|
    ensures TextLess(a1 + b1, a2 + b2) <==> TextLess(a1, a2) || (a1 == a2 && TextLess(b1, b2))
    decreases |a1|
  {
    if |a1| == 0 {
      assert a1 + b1 == b1 && a2 + b2 == b2;
    } else {
      assert (a1 + b1)[0] == a1[0] && (a2 + b2)[0] == a2[0];
      assert (a1 + b1)[1..] == a1[1..] + b1 && (a2 + b2)[1..] == a2[1..] + b2;
      TextLessAppend(a1[1..], b1, a2[1..], b2);
      if a1[0] == a2[0] && a1[1..] == a2[1..] {
        assert a1 == [a1[0]] + a1[1..] && a2 == [a2[0]] + a2[1..];
      }
      if a1 == a2 {
        TextLessIrreflexive(a1);
      }
    }
  }

  /** A common prefix does not change the order. */
  lemma TextLessSamePrefix(p: string, a: string, b: string)
    requires TextLess(a, b)
    ensures TextLess(p + a, p + b)
  {
    TextLessAppend(p, a, p, b);
  }

  /** Between concatenations whose first parts have equal length, a smaller
      first part decides. */
  lemma TextLessFirstPart(a1: string, b1: string, a2: string, b2: string)
    requires |a1| == |a2| && TextLess(a1, a2)
    ensures TextLess(a1 + b1, a2 + b2)
  {
    TextLessAppend(a1, b1, a2, b2);
  }

  /** A strict comparison that holds settles every other comparison of the pair. */
  lemma TextLessDecides(a: string, b: string)
    requires TextLess(a, b)
    ensures a != b && TextLeq(a, b) && !TextLess(b, a) && !TextLeq(b, a)
  {
    TextLessAsymmetric(a, b);
    if a == b {
      TextLessIrreflexive(a);
    }
  }
}
