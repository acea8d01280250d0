/**
 * Python's `list.sort(key=...)`: a stable sort by a real-valued key.
 * `SortBy` is a functional insertion sort; `StableSortCharacterization`
 * shows it is the only sorted rearrangement that keeps equal-key elements
 * in their original order, so it computes what any stable sort computes.
 */
module StableSort {

  /** `s` is non-decreasing in `key`. */
  ghost predicate SortedBy<T>(s: seq<T>, key: T -> real) {
    forall i, j :: 0 <= i < j < |s| ==> key(s[i]) <= key(s[j])
  }

  /** The elements of `s` whose key is `v`, in their order in `s`. */
  ghost function Filter<T>(s: seq<T>, key: T -> real, v: real): seq<T>
    decreases |s|
  {
    if s == [] then []
    else Filter(s[..|s| - 1], key, v) + (if key(s[|s| - 1]) == v then [s[|s| - 1]] else [])
  }

  /** `t` is a stable sort of `s`: sorted, and every key's elements keep their relative order. */
  ghost predicate IsStableSortOf<T>(t: seq<T>, s: seq<T>, key: T -> real) {
    SortedBy(t, key) && forall v :: Filter(t, key, v) == Filter(s, key, v)
  }

  /** Inserts `x` after every element whose key is at most `x`'s. */
  function Insert<T>(t: seq<T>, x: T, key: T -> real): seq<T>
    decreases |t|
  {
    if t == [] then [x]
    else if key(t[|t| - 1]) <= key(x) then t + [x]
    else
      Insert(t[..|t| - 1], x, key) + [t[|t| - 1]]
  }

  /** The stable sort of `s` by `key`. */
  function SortBy<T>(s: seq<T>, key: T -> real): seq<T>
    decreases |s|
  {
    if s == [] then []
    else
      Insert(SortBy(s[..|s| - 1], key), s[|s| - 1], key)
  }

  /** Inserting adds exactly `x`. */
  lemma {:induction false} InsertPermutation<T>(t: seq<T>, x: T, key: T -> real)
    ensures multiset(Insert(t, x, key)) == multiset(t) + multiset{x}
    decreases |t|
  {
    if t != [] && key(t[|t| - 1]) > key(x) {
      var init, last := t[..|t| - 1], t[|t| - 1];
      assert t == init + [last];
      InsertPermutation(init, x, key);
    }
  }

  /** The result of `SortBy` is a permutation of its input. */
  lemma {:induction false} SortByPermutation<T>(s: seq<T>, key: T -> real)
    ensures multiset(SortBy(s, key)) == multiset(s)
    decreases |s|
  {
    if s != [] {
      var init, last := s[..|s| - 1], s[|s| - 1];
      assert s == init + [last];
      SortByPermutation(init, key);
      InsertPermutation(SortBy(init, key), last, key);
    }
  }

  lemma SortBySnoc<T>(s: seq<T>, x: T, key: T -> real)
    ensures SortBy(s + [x], key) == Insert(SortBy(s, key), x, key)
  {
    assert (s + [x])[..|s|] == s;
  }

  lemma InsertAfter<T>(t: seq<T>, x: T, key: T -> real)
    requires t == [] || key(t[|t| - 1]) <= key(x)
    ensures Insert(t, x, key) == t + [x]
  {
  }

  lemma InsertBefore<T>(init: seq<T>, last: T, x: T, key: T -> real)
    requires key(x) < key(last)
    ensures Insert(init + [last], x, key) == Insert(init, x, key) + [last]
  {
    var t := init + [last];
    assert t[..|t| - 1] == init && t[|t| - 1] == last;
  }

  lemma FilterSnoc<T>(s: seq<T>, y: T, key: T -> real, v: real)
    ensures Filter(s + [y], key, v) == Filter(s, key, v) + (if key(y) == v then [y] else [])
  {
    assert (s + [y])[..|s|] == s;
  }

  lemma {:induction false} FilterMember<T>(s: seq<T>, key: T -> real, v: real, x: T)
    ensures x in Filter(s, key, v) <==> x in s && key(x) == v
    decreases |s|
  {
    if s != [] {
      var init, last := s[..|s| - 1], s[|s| - 1];
      assert s == init + [last];
      FilterMember(init, key, v, x);
    }
  }

  lemma {:induction false} InsertSorted<T>(t: seq<T>, x: T, key: T -> real)
    requires SortedBy(t, key)
    ensures SortedBy(Insert(t, x, key), key)
    decreases |t|
  {
    if t == [] {
    } else if key(t[|t| - 1]) <= key(x) {
      var r := t + [x];
      forall i, j | 0 <= i < j < |r| ensures key(r[i]) <= key(r[j]) {
        if j == |t| {
          assert r[i] == t[i];
        }
      }
    } else {
      var init, last := t[..|t| - 1], t[|t| - 1];
      InsertSorted(init, x, key);
      var r' := Insert(init, x, key);
      InsertPermutation(init, x, key);
      forall y | y in r' ensures key(y) <= key(last) {
        assert y in multiset(init) + multiset{x};
        if y != x {
          assert y in init;
          var k :| 0 <= k < |init| && init[k] == y;
          assert t[k] == y;
        }
      }
      var r := r' + [last];
      forall i, j | 0 <= i < j < |r| ensures key(r[i]) <= key(r[j]) {
        if j == |r| - 1 {
          assert r[i] in r';
        } else {
          assert r[i] == r'[i] && r[j] == r'[j];
        }
      }
    }
  }

  /** The result of `SortBy` is sorted. */
  lemma {:induction false} SortBySorted<T>(s: seq<T>, key: T -> real)
    ensures SortedBy(SortBy(s, key), key)
    decreases |s|
  {
    if s != [] {
      SortBySorted(s[..|s| - 1], key);
      InsertSorted(SortBy(s[..|s| - 1], key), s[|s| - 1], key);
    }
  }

  /** Inserting `x` before a larger last element `last` commutes with filtering. */
  lemma FilterInsertBeforeLast<T>(init: seq<T>, last: T, x: T, key: T -> real, v: real)
    requires key(x) < key(last)
    requires Filter(Insert(init, x, key), key, v) == Filter(init, key, v) + (if key(x) == v then [x] else [])
    ensures Filter(Insert(init + [last], x, key), key, v) == Filter(init + [last], key, v) + (if key(x) == v then [x] else [])
  {
    var t := init + [last];
    InsertBefore(init, last, x, key);
    FilterSnoc(Insert(init, x, key), last, key, v);
    FilterSnoc(init, last, key, v);
    var fi := Filter(init, key, v);
    if key(x) == v {
      assert key(last) != v;
      assert Filter(t, key, v) == fi;
      assert Filter(Insert(t, x, key), key, v) == fi + [x];
    } else {
      assert Filter(Insert(t, x, key), key, v) == Filter(Insert(init, x, key), key, v) + (if key(last) == v then [last] else []);
      assert Filter(Insert(init, x, key), key, v) == fi;
    }
  }

  lemma {:induction false} FilterInsert<T>(t: seq<T>, x: T, key: T -> real, v: real)
    ensures Filter(Insert(t, x, key), key, v) == Filter(t, key, v) + (if key(x) == v then [x] else [])
    decreases |t|
  {
    if t == [] {
      FilterSnoc([], x, key, v);
      assert [] + [x] == [x];
    } else if key(t[|t| - 1]) <= key(x) {
      FilterSnoc(t, x, key, v);
    } else {
      var init, last := t[..|t| - 1], t[|t| - 1];
      FilterInsert(init, x, key, v);
      assert t == init + [last];
      FilterInsertBeforeLast(init, last, x, key, v);
    }
  }

  /** `SortBy` keeps every key's elements in their original relative order. */
  lemma {:induction false} SortByStable<T>(s: seq<T>, key: T -> real, v: real)
    ensures Filter(SortBy(s, key), key, v) == Filter(s, key, v)
    decreases |s|
  {
    if s != [] {
      SortByStable(s[..|s| - 1], key, v);
      FilterInsert(SortBy(s[..|s| - 1], key), s[|s| - 1], key, v);
    }
  }

  lemma FilterNonEmpty<T>(s: seq<T>, key: T -> real)
    requires s != []
    ensures Filter(s, key, key(s[0])) != []
  {
    FilterMember(s, key, key(s[0]), s[0]);
  }

  /** With equal filters, the last key of a sorted `t1` is at most the last key of a sorted `t2`. */
  lemma LastKeyBound<T>(t1: seq<T>, t2: seq<T>, key: T -> real)
    requires t1 != [] && t2 != [] && SortedBy(t2, key)
    requires forall v :: Filter(t1, key, v) == Filter(t2, key, v)
    ensures key(t1[|t1| - 1]) <= key(t2[|t2| - 1])
  {
    var a := t1[|t1| - 1];
    FilterMember(t1, key, key(a), a);
    FilterMember(t2, key, key(a), a);
    var j :| 0 <= j < |t2| && t2[j] == a;
  }

  lemma SnocInjective<T>(x: seq<T>, a: T, y: seq<T>, b: T)
    requires x + [a] == y + [b]
    ensures x == y && a == b
  {
    assert |x| == |y|;
    assert x == (x + [a])[..|x|];
    assert y == (y + [b])[..|y|];
  }

  /** Two sorted sequences with the same elements in the same order per key are equal. */
  lemma {:induction false} StableSortUnique<T>(t1: seq<T>, t2: seq<T>, key: T -> real)
    requires SortedBy(t1, key) && SortedBy(t2, key)
    requires forall v :: Filter(t1, key, v) == Filter(t2, key, v)
    ensures t1 == t2
    decreases |t1|
  {
    if t1 != [] && t2 == [] {
      FilterNonEmpty(t1, key);
    } else if t1 == [] && t2 != [] {
      FilterNonEmpty(t2, key);
    } else if t1 != [] {
      var a, b := t1[|t1| - 1], t2[|t2| - 1];
      var i1, i2 := t1[..|t1| - 1], t2[..|t2| - 1];
      assert t1 == i1 + [a] && t2 == i2 + [b];
      LastKeyBound(t1, t2, key);
      LastKeyBound(t2, t1, key);
      var k := key(a);
      FilterSnoc(i1, a, key, k);
      FilterSnoc(i2, b, key, k);
      SnocInjective(Filter(i1, key, k), a, Filter(i2, key, k), b);
      forall v ensures Filter(i1, key, v) == Filter(i2, key, v) {
        assert Filter(t1, key, v) == Filter(t2, key, v);
        FilterSnoc(i1, a, key, v);
        FilterSnoc(i2, b, key, v);
        if v == k {
          assert Filter(i1, key, k) == Filter(i2, key, k);
        } else {
          assert key(a) != v && key(b) != v;
          assert Filter(t1, key, v) == Filter(i1, key, v);
          assert Filter(t2, key, v) == Filter(i2, key, v);
        }
      }
      assert SortedBy(i1, key) && SortedBy(i2, key);
      StableSortUnique(i1, i2, key);
    }
  }

  /** `t` is a stable sort of `s` exactly when it is `SortBy(s, key)`. */
  lemma StableSortCharacterization<T>(t: seq<T>, s: seq<T>, key: T -> real)
    ensures IsStableSortOf(t, s, key) <==> t == SortBy(s, key)
  {
    SortBySorted(s, key);
    forall v ensures Filter(SortBy(s, key), key, v) == Filter(s, key, v) {
      SortByStable(s, key, v);
    }
    if IsStableSortOf(t, s, key) {
      StableSortUnique(t, SortBy(s, key), key);
    }
  }

  /** No two elements of `s` share a key. */
  ghost predicate DistinctKeys<T>(s: seq<T>, key: T -> real) {
    forall i, j :: 0 <= i < j < |s| ==> key(s[i]) != key(s[j])
  }

  lemma {:induction false} FilterTwo<T>(s: seq<T>, key: T -> real, i: nat, j: nat)
    requires i < j < |s| && key(s[i]) == key(s[j])
    ensures |Filter(s, key, key(s[i]))| >= 2
    decreases |s|
  {
    var init, last := s[..|s| - 1], s[|s| - 1];
    assert s == init + [last];
    var v := key(s[i]);
    FilterSnoc(init, last, key, v);
    if j < |s| - 1 {
      assert init[i] == s[i] && init[j] == s[j];
      FilterTwo(init, key, i, j);
    } else {
      assert init[i] == s[i];
      FilterMember(init, key, v, s[i]);
    }
  }

  lemma {:induction false} FilterAtMostOne<T>(s: seq<T>, key: T -> real, v: real)
    requires DistinctKeys(s, key)
    ensures |Filter(s, key, v)| <= 1
    decreases |s|
  {
    if s != [] {
      var init, last := s[..|s| - 1], s[|s| - 1];
      assert s == init + [last];
      FilterSnoc(init, last, key, v);
      assert DistinctKeys(init, key);
      FilterAtMostOne(init, key, v);
      if key(last) == v && Filter(init, key, v) != [] {
        var y := Filter(init, key, v)[0];
        FilterMember(init, key, v, y);
        assert false;
      }
    }
  }

  /** Sorting keeps keys distinct. */
  lemma SortByDistinct<T>(s: seq<T>, key: T -> real)
    requires DistinctKeys(s, key)
    ensures DistinctKeys(SortBy(s, key), key)
  {
    var t := SortBy(s, key);
    forall i, j | 0 <= i < j < |t| ensures key(t[i]) != key(t[j]) {
      if key(t[i]) == key(t[j]) {
        FilterTwo(t, key, i, j);
        SortByStable(s, key, key(t[i]));
        FilterAtMostOne(s, key, key(t[i]));
        assert false;
      }
    }
  }
}
