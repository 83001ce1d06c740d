/**
 Facts about finite sets and maps, for any element types.
 */
module MapLemmas {

  /** A map that differs from another at one key. */
  lemma AgreeElsewhere<K, T>(a: map<K, T>, b: map<K, T>, p: K, t: T)
    requires b.Keys == a.Keys + {p} && b[p] == t
    requires forall r :: r in a && r != p ==> b[r] == a[r]
    ensures b == a[p := t]
  {
  }

  lemma {:induction false} CardinalityMonotone<T>(a: set<T>, b: set<T>)
    requires a <= b
    ensures |a| <= |b|
  {
    if x :| x in a {
      CardinalityMonotone(a - {x}, b - {x});
    }
  }

  /** A map that lacks one of another's keys, and has no others, is smaller. */
  lemma FewerKeys<K, V, W>(a: map<K, V>, b: map<K, W>, k: K)
    requires k in b && k !in a && forall x :: x in a ==> x in b
    ensures |a| < |b|
  {
    CardinalityMonotone(a.Keys + {k}, b.Keys);
    assert |a.Keys + {k}| == |a| + 1 && |b.Keys| == |b|;
  }

  /** A set that is not empty has a member. */
  lemma AnyMember<T>(s: set<T>) returns (x: T)
    requires s != {}
    ensures x in s
  {
    x :| x in s;
  }

  /** Distinct numbers from a range are no more than the range holds. */
  lemma {:induction false} Pigeonhole(s: seq<int>, lo: int, hi: int)
    requires lo <= hi && forall i :: 0 <= i < |s| ==> lo <= s[i] < hi
    requires forall i, j :: 0 <= i < j < |s| ==> s[i] != s[j]
    ensures |s| <= hi - lo
    decreases hi - lo
  {
    if |s| > 0 {
      assert lo <= s[0] < hi;
      if i :| 0 <= i < |s| && s[i] == hi - 1 {
        var rest := s[..i] + s[i + 1..];
        assert forall j :: 0 <= j < |rest| ==> rest[j] == if j < i then s[j] else s[j + 1];
        Pigeonhole(rest, lo, hi - 1);
      } else {
        Pigeonhole(s, lo, hi - 1);
      }
    }
  }
}
