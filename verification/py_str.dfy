/**
 * Python's ordering of `str` values: lexicographic by code point, with a
 * proper prefix ordered first. Dafny's own `<` on sequences means "proper
 * prefix", so the ordering is defined here, together with the stable sort
 * (`list.sort(key=...)`) the R-tree uses on string keys.
 */
module PyStr {
  /** `a < b` on Python strings. */
  predicate Lt(a: string, b: string)
    decreases |a|
  {
    |b| > 0 && (|a| == 0 || a[0] < b[0] || (a[0] == b[0] && Lt(a[1..], b[1..])))
  }

  /** `a <= b` on Python strings. */
  predicate Le(a: string, b: string)
  {
    a == b || Lt(a, b)
  }

  lemma {:induction false} LtIrreflexive(a: string)
    ensures !Lt(a, a)
  {
    if |a| > 0 {
      LtIrreflexive(a[1..]);
    }
  }

  lemma {:induction false} LtAsymmetric(a: string, b: string)
    ensures Lt(a, b) ==> !Lt(b, a)
  {
    if |a| > 0 && |b| > 0 && a[0] == b[0] {
      LtAsymmetric(a[1..], b[1..]);
    }
  }

  lemma {:induction false} LtTransitive(a: string, b: string, c: string)
    requires Lt(a, b) && Lt(b, c)
    ensures Lt(a, c)
  {
    if |a| > 0 && a[0] == b[0] && b[0] == c[0] {
      LtTransitive(a[1..], b[1..], c[1..]);
    }
  }

  /** Any two different strings are ordered one way or the other. */
  lemma {:induction false} LtTotal(a: string, b: string)
    ensures a == b || Lt(a, b) || Lt(b, a)
  {
    if |a| > 0 && |b| > 0 && a[0] == b[0] {
      LtTotal(a[1..], b[1..]);
      if a[1..] == b[1..] {
        assert a == [a[0]] + a[1..] && b == [b[0]] + b[1..];
      }
    }
  }

  lemma LeTransitive(a: string, b: string, c: string)
    requires Le(a, b) && Le(b, c)
    ensures Le(a, c)
  {
    if a != b && b != c {
      LtTransitive(a, b, c);
    }
  }

  /** `Le` is antisymmetric, so a sorted list of distinct strings is strictly increasing. */
  lemma LeAntisymmetric(a: string, b: string)
    requires Le(a, b) && Le(b, a)
    ensures a == b
  {
    LtAsymmetric(a, b);
  }

  predicate SortedBy<T>(s: seq<T>, key: T -> string)
  {
    forall i, j :: 0 <= i < j < |s| ==> Le(key(s[i]), key(s[j]))
  }

  /** Places `x` before the first element whose key is not smaller, keeping equal keys in order. */
  function InsertBy<T>(x: T, s: seq<T>, key: T -> string): (r: seq<T>)
    requires SortedBy(s, key)
    ensures SortedBy(r, key) && multiset(r) == multiset(s) + multiset{x}
  {
    if |s| == 0 || Le(key(x), key(s[0])) then
      forall j | 0 < j < |s|
        ensures Le(key(x), key(s[j]))
      {
        LeTransitive(key(x), key(s[0]), key(s[j]));
      }
      [x] + s
    else
      LtTotal(key(x), key(s[0]));
      var t := InsertBy(x, s[1..], key);
      assert s == [s[0]] + s[1..];
      forall j | 0 <= j < |t|
        ensures Le(key(s[0]), key(t[j]))
      {
        assert t[j] in multiset(t);
        if t[j] != x {
          assert t[j] in multiset(s[1..]);
          var k :| 0 <= k < |s[1..]| && s[1..][k] == t[j];
          assert s[k + 1] == t[j];
        }
      }
      [s[0]] + t
  }

  /** list.sort(key=key): a stable sort on string keys. */
  function SortBy<T>(s: seq<T>, key: T -> string): (r: seq<T>)
    ensures SortedBy(r, key) && multiset(r) == multiset(s) && |r| == |s|
  {
    if |s| == 0 then []
    else
      assert s == [s[0]] + s[1..];
      var r := InsertBy(s[0], SortBy(s[1..], key), key);
      assert |r| == |multiset(r)|;
      r
  }
}
