/** Counting the members of a finite map whose value satisfies a predicate.
    Reference counts and waiter counts in the models are stated with `Those`. */
module Counting {

  /** The keys of `m` whose value satisfies `p`. */
  ghost function Those<K, V>(m: map<K, V>, p: V -> bool): set<K> {
    set k | k in m && p(m[k])
  }

  ghost function Count<K, V>(m: map<K, V>, p: V -> bool): nat {
    |Those(m, p)|
  }

  function One(b: bool): nat {
    if b then 1 else 0
  }

  /** Changing one entry changes the count by exactly that entry's contribution. */
  lemma CountUpdate<K, V>(m: map<K, V>, k: K, v: V, p: V -> bool)
    ensures Count(m[k := v], p) == Count(m, p) - One(k in m && p(m[k])) + One(p(v))
  {
    var before, after := Those(m, p), Those(m[k := v], p);
    SameElsewhere(m, k, v, p);
    Split(before, k);
    Split(after, k);
    assert k in before <==> k in m && p(m[k]);
    assert k in after <==> p(v);
  }

  lemma SameElsewhere<K, V>(m: map<K, V>, k: K, v: V, p: V -> bool)
    ensures Those(m[k := v], p) - {k} == Those(m, p) - {k}
  {
    var n := m[k := v];
    forall x | x != k
      ensures x in Those(n, p) <==> x in Those(m, p)
    {
      assert x in n <==> x in m;
    }
  }

  lemma Split<T>(s: set<T>, x: T)
    ensures |s| == |s - {x}| + One(x in s)
  {
    if x in s {
      assert s == (s - {x}) + {x};
    } else {
      assert s - {x} == s;
    }
  }

  lemma CountPositive<K, V>(m: map<K, V>, k: K, p: V -> bool)
    requires k in m && p(m[k])
    ensures Count(m, p) >= 1
  {
    assert k in Those(m, p);
  }

  lemma CountZero<K, V>(m: map<K, V>, p: V -> bool)
    requires forall k :: k in m ==> !p(m[k])
    ensures Count(m, p) == 0
  {
    assert Those(m, p) == {};
  }

  /** A count of one leaves no room for a second member. */
  lemma CountUnique<K, V>(m: map<K, V>, k: K, l: K, p: V -> bool)
    requires Count(m, p) == 1
    requires k in m && l in m && p(m[k]) && p(m[l])
    ensures k == l
  {
    if k != l {
      assert {k, l} <= Those(m, p);
      Subset({k, l}, Those(m, p));
    }
  }

  lemma Subset<T>(a: set<T>, b: set<T>)
    requires a <= b
    ensures |a| <= |b|
  {
    assert b == a + (b - a);
  }
}
