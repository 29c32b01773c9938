/** Sorting a set of keys into ascending order (what `Object.keys(data).sort()` yields once
    key insertion order no longer matters), and order-preserving filtering. */
module KeyOrder {
  import opened Lex

  /** `m` is the smallest element of `s`. */
  predicate IsLeast(m: string, s: set<string>) {
    m in s && forall x :: x in s && x != m ==> Less(m, x)
  }

  lemma {:induction false} LeastExists(s: set<string>)
    requires s != {}
    ensures exists m :: IsLeast(m, s)
    decreases |s|
  {
    var x :| x in s;
    if s == {x} {
      assert IsLeast(x, s);
    } else {
      LeastExists(s - {x});
      var m :| IsLeast(m, s - {x});
      LessTotal(x, m);
      if Less(x, m) {
        forall y | y in s && y != x ensures Less(x, y) {
          if y != m {
            LessTransitive(x, m, y);
          }
        }
        assert IsLeast(x, s);
      } else {
        assert IsLeast(m, s);
      }
    }
  }

  lemma LeastUnique(s: set<string>)
    ensures forall a, b :: IsLeast(a, s) && IsLeast(b, s) ==> a == b
  {
    forall a, b | IsLeast(a, s) && IsLeast(b, s) ensures a == b {
      if a != b {
        LessAsymmetric(a, b);
      }
    }
  }

  /** The smallest key of a non-empty set. */
  function Least(s: set<string>): (m: string)
    requires s != {}
    ensures IsLeast(m, s)
  {
    LeastExists(s);
    LeastUnique(s);
    var m :| IsLeast(m, s); m
  }

  /** The keys of `s` in ascending order, each exactly once. */
  function SortedKeys(s: set<string>): (r: seq<string>)
    ensures StrictlySorted(r)
    ensures forall k :: k in r <==> k in s
    ensures |r| == |s|
    decreases |s|
  {
    if s == {} then []
    else
      var m := Least(s);
      var rest := SortedKeys(s - {m});
      assert forall k :: k in rest ==> Less(m, k);
      [m] + rest
  }

  /** A strictly sorted sequence is determined by its elements. */
  lemma {:induction false} SortedUnique(a: seq<string>, b: seq<string>)
    requires StrictlySorted(a) && StrictlySorted(b)
    requires forall k :: k in a <==> k in b
    ensures a == b
    decreases |a|
  {
    if |a| > 0 {
      assert a[0] in b;
    }
    if |b| > 0 {
      assert b[0] in a;
    }
    if |a| > 0 && |b| > 0 {
      if a[0] != b[0] {
        assert b[0] in a && a[0] in b;
        var i :| 0 <= i < |a| && a[i] == b[0];
        var j :| 0 <= j < |b| && b[j] == a[0];
        assert Less(a[0], b[0]) by { assert i > 0; }
        assert Less(b[0], a[0]) by { assert j > 0; }
        LessAsymmetric(a[0], b[0]);
      } else {
        forall k ensures k in a[1..] <==> k in b[1..] {
          if k in a[1..] {
            var i :| 1 <= i < |a| && a[i] == k;
            LessIrreflexive(a[0]);
            assert k != a[0] by { assert Less(a[0], a[i]); }
            assert k in b;
            var j :| 0 <= j < |b| && b[j] == k;
            assert j != 0;
          }
          if k in b[1..] {
            var j :| 1 <= j < |b| && b[j] == k;
            LessIrreflexive(b[0]);
            assert k != b[0] by { assert Less(b[0], b[j]); }
            assert k in a;
            var i :| 0 <= i < |a| && a[i] == k;
            assert i != 0;
          }
        }
        SortedUnique(a[1..], b[1..]);
        assert a == [a[0]] + a[1..] && b == [b[0]] + b[1..];
      }
    }
  }

  /** `s.filter(keep)`: the elements satisfying `keep`, in the order they had. */
  function Filter(s: seq<string>, keep: string -> bool): (r: seq<string>)
    ensures forall k :: k in r <==> k in s && keep(k)
    ensures |r| <= |s|
  {
    if |s| == 0 then []
    else if keep(s[0]) then [s[0]] + Filter(s[1..], keep)
    else Filter(s[1..], keep)
  }

  /** Filtering keeps a strictly sorted sequence strictly sorted. */
  lemma {:induction false} FilterSorted(s: seq<string>, keep: string -> bool)
    requires StrictlySorted(s)
    ensures StrictlySorted(Filter(s, keep))
  {
    if |s| > 0 {
      FilterSorted(s[1..], keep);
      var rest := Filter(s[1..], keep);
      forall k | k in rest ensures Less(s[0], k) {
        var i :| 0 <= i < |s[1..]| && s[1..][i] == k;
        assert s[i + 1] == k;
      }
    }
  }

  /** Filtering sorted keys is sorting the filtered key set `t`: the order of the two steps
      does not matter. */
  lemma FilterSortedKeys(s: set<string>, keep: string -> bool, t: set<string>)
    requires forall k :: k in t <==> k in s && keep(k)
    ensures Filter(SortedKeys(s), keep) == SortedKeys(t)
  {
    FilterSorted(SortedKeys(s), keep);
    SortedUnique(Filter(SortedKeys(s), keep), SortedKeys(t));
  }
}
