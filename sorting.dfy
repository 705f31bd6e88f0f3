/**
 * Python's stable sort (`sorted(xs, key=k)`, `sorted(xs, key=k, reverse=True)` and
 * `xs.sort(key=k)`), as used by both selectors and by the anticlockwise ordering.
 *
 * A sort is described by a key function and a strict total order `before` on keys:
 * an element whose key comes `before` another's is placed first. Ascending order is
 * `before == <`; Python's `reverse=True` is `before == >`, and it keeps equal keys in
 * their original order, which is what stability below states.
 */
module Sorting {

  /** `before` is a strict total order: irreflexive, transitive and connected. */
  ghost predicate StrictTotalOrder<K(!new)>(before: (K, K) -> bool) {
    && (forall a :: !before(a, a))
    && (forall a, b, c :: before(a, b) && before(b, c) ==> before(a, c))
    && (forall a, b :: a != b ==> before(a, b) || before(b, a))
  }

  /** No element's key comes before the key of an element placed ahead of it. */
  ghost predicate SortedBy<T, K>(s: seq<T>, key: T -> K, before: (K, K) -> bool) {
    forall i, j :: 0 <= i < j < |s| ==> !before(key(s[j]), key(s[i]))
  }

  /** Elements with equal keys stand in `s` in an order that `ord` accepts. */
  ghost predicate TiesOrdered<T, K>(s: seq<T>, key: T -> K, ord: (T, T) -> bool) {
    forall i, j :: 0 <= i < j < |s| && key(s[i]) == key(s[j]) ==> ord(s[i], s[j])
  }

  /** Inserts `x` behind every element of `s` whose key it does not come before. */
  function InsertBy<T, K>(x: T, s: seq<T>, key: T -> K, before: (K, K) -> bool): seq<T>
  {
    if s == [] || !before(key(x), key(s[|s| - 1])) then s + [x]
    else InsertBy(x, s[..|s| - 1], key, before) + [s[|s| - 1]]
  }

  /** The stable sort, by insertion of each element in turn. */
  function SortBy<T, K>(s: seq<T>, key: T -> K, before: (K, K) -> bool): seq<T>
  {
    if s == [] then []
    else InsertBy(s[|s| - 1], SortBy(s[..|s| - 1], key, before), key, before)
  }

  /** `InsertBy` puts `x` at one position `j`; everything behind it has a key that `x`'s comes before. */
  lemma {:induction false} InsertBySplit<T, K>(x: T, s: seq<T>, key: T -> K, before: (K, K) -> bool)
    returns (j: nat)
    ensures j <= |s|
    ensures InsertBy(x, s, key, before) == s[..j] + [x] + s[j..]
    ensures |InsertBy(x, s, key, before)| == |s| + 1
    ensures forall k :: 0 <= k < j ==> InsertBy(x, s, key, before)[k] == s[k]
    ensures InsertBy(x, s, key, before)[j] == x
    ensures forall k :: j < k <= |s| ==> InsertBy(x, s, key, before)[k] == s[k - 1]
    ensures forall k :: j <= k < |s| ==> before(key(x), key(s[k]))
    ensures j > 0 ==> !before(key(x), key(s[j - 1]))
  {
    if s == [] || !before(key(x), key(s[|s| - 1])) {
      j := |s|;
    } else {
      var init := s[..|s| - 1];
      j := InsertBySplit(x, init, key, before);
      assert init[..j] == s[..j];
      assert init[j..] + [s[|s| - 1]] == s[j..];
    }
  }

  /** Inserting adds exactly one occurrence of `x`. */
  lemma {:induction false} InsertByMultiset<T, K>(x: T, s: seq<T>, key: T -> K, before: (K, K) -> bool)
    ensures |InsertBy(x, s, key, before)| == |s| + 1
    ensures multiset(InsertBy(x, s, key, before)) == multiset(s) + multiset{x}
  {
    if s != [] && before(key(x), key(s[|s| - 1])) {
      var init := s[..|s| - 1];
      InsertByMultiset(x, init, key, before);
      assert s == init + [s[|s| - 1]];
    }
  }

  /** The sort returns a permutation of its input. */
  lemma {:induction false} SortByPermutation<T, K>(s: seq<T>, key: T -> K, before: (K, K) -> bool)
    ensures |SortBy(s, key, before)| == |s|
    ensures multiset(SortBy(s, key, before)) == multiset(s)
  {
    if s != [] {
      var init := s[..|s| - 1];
      SortByPermutation(init, key, before);
      InsertByMultiset(s[|s| - 1], SortBy(init, key, before), key, before);
      assert s == init + [s[|s| - 1]];
    }
  }

  /** "Does not come before" is transitive for a strict total order. */
  lemma NotBeforeTransitive<K(!new)>(before: (K, K) -> bool, a: K, b: K, c: K)
    requires StrictTotalOrder(before)
    requires !before(a, b) && !before(b, c)
    ensures !before(a, c)
  {
  }

  /** Inserting into a sorted sequence keeps it sorted. */
  lemma InsertBySorted<T, K(!new)>(x: T, s: seq<T>, key: T -> K, before: (K, K) -> bool)
    requires StrictTotalOrder(before)
    requires SortedBy(s, key, before)
    ensures SortedBy(InsertBy(x, s, key, before), key, before)
  {
    var j := InsertBySplit(x, s, key, before);
    var r := InsertBy(x, s, key, before);
    forall a, b | 0 <= a < b < |r|
      ensures !before(key(r[b]), key(r[a]))
    {
      if a < j && b == j {
        // key(x) does not come before key(s[j-1]), which does not come before key(s[a])
        NotBeforeTransitive(before, key(x), key(s[j - 1]), key(s[a]));
      } else if a == j {
        assert before(key(x), key(s[b - 1]));
      } else if a < j && b < j {
        assert r[a] == s[a] && r[b] == s[b];
      } else if a < j {
        assert r[a] == s[a] && r[b] == s[b - 1];
      } else {
        assert r[a] == s[a - 1] && r[b] == s[b - 1];
      }
    }
  }

  /** The sort returns its input in key order. */
  lemma {:induction false} SortBySorted<T, K(!new)>(s: seq<T>, key: T -> K, before: (K, K) -> bool)
    requires StrictTotalOrder(before)
    ensures SortedBy(SortBy(s, key, before), key, before)
  {
    if s != [] {
      SortBySorted(s[..|s| - 1], key, before);
      InsertBySorted(s[|s| - 1], SortBy(s[..|s| - 1], key, before), key, before);
    }
  }

  /**
   * Stability: whatever order `ord` the input's equal-key elements stand in, the
   * output's equal-key elements stand in it as well.
   */
  lemma {:induction false} SortByStable<T, K(!new)>(s: seq<T>, key: T -> K, before: (K, K) -> bool, ord: (T, T) -> bool)
    requires StrictTotalOrder(before)
    requires TiesOrdered(s, key, ord)
    ensures TiesOrdered(SortBy(s, key, before), key, ord)
  {
    if s != [] {
      var init, x := s[..|s| - 1], s[|s| - 1];
      assert TiesOrdered(init, key, ord) by {
        forall i, j | 0 <= i < j < |init| && key(init[i]) == key(init[j])
          ensures ord(init[i], init[j])
        {
          assert init[i] == s[i] && init[j] == s[j];
        }
      }
      SortByStable(init, key, before, ord);
      SortByPermutation(init, key, before);
      var sorted := SortBy(init, key, before);
      forall e | e in sorted && key(e) == key(x)
        ensures ord(e, x)
      {
        assert e in multiset(init);
        var i :| 0 <= i < |init| && init[i] == e;
        assert s[i] == e;
      }
      InsertByStable(x, sorted, key, before, ord);
    }
  }

  /** Inserting `x` behind the equal-key elements it is `ord`-after keeps the ties in `ord` order. */
  lemma InsertByStable<T, K(!new)>(x: T, s: seq<T>, key: T -> K, before: (K, K) -> bool, ord: (T, T) -> bool)
    requires StrictTotalOrder(before)
    requires TiesOrdered(s, key, ord)
    requires forall e :: e in s && key(e) == key(x) ==> ord(e, x)
    ensures TiesOrdered(InsertBy(x, s, key, before), key, ord)
  {
    var j := InsertBySplit(x, s, key, before);
    var r := InsertBy(x, s, key, before);
    forall a, b | 0 <= a < b < |r| && key(r[a]) == key(r[b])
      ensures ord(r[a], r[b])
    {
      if b == j {
        assert r[a] == s[a];
      } else if a == j {
        // x's key comes before the key of everything behind it, so none is equal to it
        assert false;
      } else if b < j {
        assert r[a] == s[a] && r[b] == s[b];
      } else if a < j {
        assert r[a] == s[a] && r[b] == s[b - 1];
      } else {
        assert r[a] == s[a - 1] && r[b] == s[b - 1];
      }
    }
  }

  /** Equal multisets stay equal when the same elements are taken out of both. */
  lemma MultisetCancel<T>(a: multiset<T>, b: multiset<T>, c: multiset<T>)
    requires a + c == b + c
    ensures a == b
  {
    forall z
      ensures a[z] == b[z]
    {
      assert (a + c)[z] == (b + c)[z];
    }
  }

  /** A sub-multiset is no larger. */
  lemma MultisetSubsetSize<T>(a: multiset<T>, b: multiset<T>)
    requires a <= b
    ensures |a| <= |b|
  {
    var c := b - a;
    forall z
      ensures b[z] == (a + c)[z]
    {
    }
    assert b == a + c;
  }

  /** A subset is no larger. */
  lemma SubsetSize<T>(a: set<T>, b: set<T>)
    requires a <= b
    ensures |a| <= |b|
  {
    var c := b - a;
    assert b == a + c;
    assert a * c == {};
  }

  /** A sequence has at most as many distinct elements as entries, and exactly as many when no entry repeats. */
  lemma {:induction false} ElementsSize<T>(s: seq<T>)
    ensures |set x | x in s| <= |s|
    ensures (forall i, j :: 0 <= i < j < |s| ==> s[i] != s[j]) ==> |set x | x in s| == |s|
  {
    if s != [] {
      ElementsSize(s[1..]);
      assert (set x | x in s) == {s[0]} + (set x | x in s[1..]);
      if forall i, j :: 0 <= i < j < |s| ==> s[i] != s[j] {
        assert s[0] !in s[1..];
      }
    }
  }

  /** Taking the last element of `p` and a matching element of `q` out of equal multisets leaves them equal. */
  lemma RemoveMatching<T>(p: seq<T>, q: seq<T>, i: nat)
    requires p != [] && i < |q| && q[i] == p[|p| - 1]
    requires multiset(p) == multiset(q)
    ensures multiset(p[..|p| - 1]) == multiset(q[..i] + q[i + 1..])
  {
    var x := q[i];
    var pRest, qRest := p[..|p| - 1], q[..i] + q[i + 1..];
    assert p == pRest + [x];
    assert q == q[..i] + [x] + q[i + 1..];
    assert multiset(qRest) == multiset(q[..i]) + multiset(q[i + 1..]);
    assert multiset(q) == multiset(qRest) + multiset{x};
    assert multiset(p) == multiset(pRest) + multiset{x};
    MultisetCancel(multiset(pRest), multiset(qRest), multiset{x});
  }

  /** Removing one occurrence of the first element from both sides of a multiset equation. */
  lemma TailMultiset<T>(a: seq<T>, b: seq<T>)
    requires a != [] && b != [] && a[0] == b[0]
    requires multiset(a) == multiset(b)
    ensures multiset(a[1..]) == multiset(b[1..])
  {
    assert a == [a[0]] + a[1..];
    assert b == [b[0]] + b[1..];
    assert multiset(a) == multiset(a[1..]) + multiset{a[0]};
    assert multiset(b) == multiset(b[1..]) + multiset{a[0]};
    MultisetCancel(multiset(a[1..]), multiset(b[1..]), multiset{a[0]});
  }

  /**
   * When the key tells distinct elements apart, there is only one sorted
   * arrangement of a given multiset of elements.
   */
  lemma {:induction false} SortedPermutationUnique<T, K(!new)>(r1: seq<T>, r2: seq<T>, key: T -> K, before: (K, K) -> bool)
    requires StrictTotalOrder(before)
    requires multiset(r1) == multiset(r2)
    requires SortedBy(r1, key, before) && SortedBy(r2, key, before)
    requires forall a, b :: a in r1 && b in r1 && key(a) == key(b) ==> a == b
    ensures r1 == r2
  {
    if r1 != [] {
      SortedHeadsAgree(r1, r2, key, before);
      TailMultiset(r1, r2);
      SortedTail(r1, key, before);
      SortedTail(r2, key, before);
      assert forall a :: a in r1[1..] ==> a in r1;
      SortedPermutationUnique(r1[1..], r2[1..], key, before);
      assert r1 == [r1[0]] + r1[1..] && r2 == [r2[0]] + r2[1..];
    }
  }

  /** Two sorted arrangements of one multiset start with the same element when the key tells elements apart. */
  lemma SortedHeadsAgree<T, K(!new)>(r1: seq<T>, r2: seq<T>, key: T -> K, before: (K, K) -> bool)
    requires StrictTotalOrder(before)
    requires r1 != [] && multiset(r1) == multiset(r2)
    requires SortedBy(r1, key, before) && SortedBy(r2, key, before)
    requires forall a, b :: a in r1 && b in r1 && key(a) == key(b) ==> a == b
    ensures r2 != [] && r1[0] == r2[0]
  {
    assert |r1| == |multiset(r1)| == |r2|;
    assert r2[0] in multiset(r1) && r1[0] in multiset(r2);
    SortedHeadFirst(r1, r2[0], key, before);
    SortedHeadFirst(r2, r1[0], key, before);
  }

  /** What follows the head of a sorted sequence is sorted. */
  lemma SortedTail<T, K>(r: seq<T>, key: T -> K, before: (K, K) -> bool)
    requires r != [] && SortedBy(r, key, before)
    ensures SortedBy(r[1..], key, before)
  {
    forall i, j | 0 <= i < j < |r[1..]|
      ensures !before(key(r[1..][j]), key(r[1..][i]))
    {
      assert r[1..][i] == r[i + 1] && r[1..][j] == r[j + 1];
    }
  }

  /** No element of a sorted sequence has a key that comes before its head's. */
  lemma SortedHeadFirst<T, K(!new)>(r: seq<T>, e: T, key: T -> K, before: (K, K) -> bool)
    requires StrictTotalOrder(before)
    requires SortedBy(r, key, before)
    requires e in r
    ensures !before(key(e), key(r[0]))
  {
    var i :| 0 <= i < |r| && r[i] == e;
    if i > 0 {
      assert !before(key(r[i]), key(r[0]));
    }
  }

  /**
   * When the key tells distinct elements apart, the sort's output depends only on
   * the multiset of its input, not on the input's order.
   */
  lemma SortByOrderIndependent<T, K(!new)>(s1: seq<T>, s2: seq<T>, key: T -> K, before: (K, K) -> bool)
    requires StrictTotalOrder(before)
    requires multiset(s1) == multiset(s2)
    requires forall a, b :: a in s1 && b in s1 && key(a) == key(b) ==> a == b
    ensures SortBy(s1, key, before) == SortBy(s2, key, before)
  {
    SortByPermutation(s1, key, before);
    assert forall a :: a in SortBy(s1, key, before) ==> a in multiset(s1);
    SortByPermutation(s2, key, before);
    SortBySorted(s1, key, before);
    SortBySorted(s2, key, before);
    SortedPermutationUnique(SortBy(s1, key, before), SortBy(s2, key, before), key, before);
  }
}
