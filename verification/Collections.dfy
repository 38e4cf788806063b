/** Optional values, sequences without duplicates and the sizes of sets. */
module Collections {
  datatype Maybe<+T> = None | Some(value: T)

  predicate AllDistinct<T(==)>(s: seq<T>) {
    forall i, j | 0 <= i < j < |s| :: s[i] != s[j]
  }

  lemma HeadIsMember<T>(s: seq<T>)
    ensures s != [] ==> s[0] in s
  {
  }

  lemma DistinctSnoc<T>(s: seq<T>, x: T)
    requires AllDistinct(s) && x !in s
    ensures AllDistinct(s + [x])
  {
  }

  lemma DistinctConcat<T>(s: seq<T>, t: seq<T>)
    requires AllDistinct(s) && AllDistinct(t) && forall x <- s :: x !in t
    ensures AllDistinct(s + t)
  {
    assert forall i | 0 <= i < |s| :: s[i] in s;
  }

  lemma Associative<T>(a: seq<T>, b: seq<T>, c: seq<T>)
    ensures (a + b) + c == a + (b + c)
  {
  }

  lemma SubsetIsNotLarger<T>(s: set<T>, t: set<T>)
    requires s <= t
    ensures |s| <= |t|
    ensures s != t ==> |s| < |t|
  {
    assert s + (t - s) == t;
    if s != t {
      assert t - s != {};
    }
  }
}
