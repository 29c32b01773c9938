/** Lexicographic order on strings, as used by the default `Array.prototype.sort`
    comparison and by string `<`, and the prefix test of `String.prototype.startsWith`. */
module Lex {

  /** `a` sorts strictly before `b`: a proper prefix, or smaller at the first difference. */
  predicate Less(a: string, b: string)
    decreases |a|
  {
    && |b| > 0
    && (|a| == 0 || a[0] < b[0] || (a[0] == b[0] && Less(a[1..], b[1..])))
  }

  /** `p` is a prefix of `s`. */
  predicate IsPrefix(p: string, s: string) {
    |p| <= |s| && s[..|p|] == p
  }

  /** Every element sorts strictly before every later one (so there are no duplicates). */
  predicate StrictlySorted(s: seq<string>) {
    forall i, j :: 0 <= i < j < |s| ==> Less(s[i], s[j])
  }

  /** No string sorts before itself. */
  lemma {:induction false} LessIrreflexive(a: string)
    ensures !Less(a, a)
    decreases |a|
  {
    if |a| > 0 {
      LessIrreflexive(a[1..]);
    }
  }

  /** The order is transitive. */
  lemma {:induction false} LessTransitive(a: string, b: string, c: string)
    requires Less(a, b) && Less(b, c)
    ensures Less(a, c)
    decreases |a|
  {
    if |a| > 0 && a[0] == b[0] && b[0] == c[0] {
      LessTransitive(a[1..], b[1..], c[1..]);
    }
  }

  /** Any two distinct strings are ordered one way or the other. */
  lemma {:induction false} LessTotal(a: string, b: string)
    ensures a == b || Less(a, b) || Less(b, a)
    decreases |a|
  {
    if |a| > 0 && |b| > 0 && a[0] == b[0] {
      LessTotal(a[1..], b[1..]);
      if a[1..] == b[1..] {
        assert a == [a[0]] + a[1..] && b == [b[0]] + b[1..];
      }
    }
  }

  /** Two strings never sort before each other. */
  lemma {:induction false} LessAsymmetric(a: string, b: string)
    requires Less(a, b)
    ensures !Less(b, a)
  {
    if Less(b, a) {
      LessTransitive(a, b, a);
      LessIrreflexive(a);
    }
  }

  /** A shared prefix does not change the order. */
  lemma {:induction false} LessPrefixed(p: string, a: string, b: string)
    requires Less(a, b)
    ensures Less(p + a, p + b)
    decreases |p|
  {
    if |p| > 0 {
      LessPrefixed(p[1..], a, b);
      assert (p + a)[1..] == p[1..] + a;
      assert (p + b)[1..] == p[1..] + b;
      assert (p + a)[0] == p[0] == (p + b)[0];
    } else {
      assert p + a == a && p + b == b;
    }
  }

  /** Strings that differ first at position `i` are ordered by the characters there. */
  lemma {:induction false} LessAtFirstDifference(a: string, b: string, i: nat)
    requires i < |a| && i < |b|
    requires a[..i] == b[..i] && a[i] < b[i]
    ensures Less(a, b)
    decreases i
  {
    if i > 0 {
      assert a[1..][..i - 1] == a[..i][1..];
      assert b[1..][..i - 1] == b[..i][1..];
      assert a[0] == a[..i][0] == b[..i][0] == b[0];
      LessAtFirstDifference(a[1..], b[1..], i - 1);
    }
  }
}
