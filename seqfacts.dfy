/** Facts about sequences rearranged in place, shared by the array-backed containers. */
module SeqFacts {

  /** `a` and `b` agree on every slot outside `from..to`. */
  ghost predicate SameOutside<T>(a: seq<T>, b: seq<T>, from: int, to: int) {
    |a| == |b| && forall k :: 0 <= k < |a| && !(from <= k <= to) ==> a[k] == b[k]
  }

  /** Equal multisets and equal slots outside `lo..hi` give equal multisets inside. */
  lemma SliceMultiset<T>(s: seq<T>, t: seq<T>, lo: int, hi: int)
    requires 0 <= lo <= hi <= |s| == |t|
    requires multiset(s) == multiset(t)
    requires forall k :: 0 <= k < |s| && !(lo <= k < hi) ==> s[k] == t[k]
    ensures multiset(s[lo..hi]) == multiset(t[lo..hi])
  {
    var front, back := s[..lo], s[hi..];
    assert front == t[..lo];
    assert back == t[hi..];
    assert s == front + s[lo..hi] + back;
    assert t == front + t[lo..hi] + back;
    MultisetCancel(front, s[lo..hi], t[lo..hi], back);
  }

  lemma MultisetCancel<T>(front: seq<T>, x: seq<T>, y: seq<T>, back: seq<T>)
    requires multiset(front + x + back) == multiset(front + y + back)
    ensures multiset(x) == multiset(y)
  {
    var f, b := multiset(front), multiset(back);
    assert multiset(front + x + back) == f + multiset(x) + b;
    assert multiset(front + y + back) == f + multiset(y) + b;
    forall e ensures multiset(x)[e] == multiset(y)[e] {
      assert (f + multiset(x) + b)[e] == f[e] + multiset(x)[e] + b[e];
      assert (f + multiset(y) + b)[e] == f[e] + multiset(y)[e] + b[e];
    }
  }

  /** Two rearrangements, the second inside the range of the first, stay inside the first range. */
  lemma SameOutsideWiden<T>(a2: seq<T>, a1: seq<T>, a0: seq<T>, lo1: int, hi1: int, lo0: int, hi0: int)
    requires SameOutside(a2, a1, lo1, hi1) && SameOutside(a1, a0, lo0, hi0)
    requires lo0 <= lo1 && hi1 <= hi0
    ensures SameOutside(a2, a0, lo0, hi0)
  {
  }
}
