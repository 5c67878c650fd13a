/**
 * A stable sort by a real-valued key: Python's `sorted(xs, key=...)`, and
 * with a negated key `Counter.most_common`, which orders by descending count
 * and keeps equal counts in insertion order.
 */
module Sorting {

  ghost predicate SortedBy<T>(s: seq<T>, key: T -> real)
  {
    forall i, j :: 0 <= i < j < |s| ==> key(s[i]) <= key(s[j])
  }

  /** The elements of `s` whose key is `v`, in their order in `s`. */
  function WithKey<T>(s: seq<T>, key: T -> real, v: real): (r: seq<T>)
    ensures |r| <= |s|
  {
    if s == [] then []
    else (if key(s[0]) == v then [s[0]] else []) + WithKey(s[1..], key, v)
  }

  lemma {:induction false} WithKeyConcat<T>(a: seq<T>, b: seq<T>, key: T -> real, v: real)
    ensures WithKey(a + b, key, v) == WithKey(a, key, v) + WithKey(b, key, v)
  {
    if a == [] {
      assert a + b == b;
    } else {
      var head := if key(a[0]) == v then [a[0]] else [];
      calc {
        WithKey(a + b, key, v);
        { assert (a + b)[0] == a[0]; assert (a + b)[1..] == a[1..] + b; }
        head + WithKey(a[1..] + b, key, v);
        { WithKeyConcat(a[1..], b, key, v); }
        head + (WithKey(a[1..], key, v) + WithKey(b, key, v));
        (head + WithKey(a[1..], key, v)) + WithKey(b, key, v);
        WithKey(a, key, v) + WithKey(b, key, v);
      }
    }
  }

  lemma {:induction false} WithKeyNone<T>(s: seq<T>, key: T -> real, v: real)
    requires forall i :: 0 <= i < |s| ==> key(s[i]) != v
    ensures WithKey(s, key, v) == []
  {
    if s != [] {
      WithKeyNone(s[1..], key, v);
    }
  }

  /** `x` placed after every element whose key is at most its own. */
  function Insert<T>(x: T, s: seq<T>, key: T -> real): (r: seq<T>)
    ensures |r| == |s| + 1
    ensures multiset(r) == multiset(s) + multiset{x}
  {
    if s == [] || key(x) < key(s[0]) then [x] + s
    else
      assert s == [s[0]] + s[1..];
      [s[0]] + Insert(x, s[1..], key)
  }

  lemma {:induction false} InsertSorted<T>(x: T, s: seq<T>, key: T -> real)
    requires SortedBy(s, key)
    ensures SortedBy(Insert(x, s, key), key)
  {
    if s != [] && key(x) >= key(s[0]) {
      var rest := Insert(x, s[1..], key);
      InsertSorted(x, s[1..], key);
      forall y | y in rest
        ensures key(s[0]) <= key(y)
      {
        assert y in multiset(rest);
        if y != x {
          assert y in s[1..];
        }
      }
    }
  }

  /** Inserting into a sorted sequence puts `x` after every element that shares its key. */
  lemma {:induction false} InsertWithKey<T>(x: T, s: seq<T>, key: T -> real, v: real)
    requires SortedBy(s, key)
    ensures WithKey(Insert(x, s, key), key, v) == WithKey(s, key, v) + (if key(x) == v then [x] else [])
  {
    var mine := if key(x) == v then [x] else [];
    if s == [] {
      assert WithKey([x], key, v) == mine + WithKey([], key, v);
    } else if key(x) < key(s[0]) {
      var r := [x] + s;
      assert r[1..] == s;
      assert WithKey(r, key, v) == mine + WithKey(s, key, v);
      if key(x) == v {
        WithKeyNone(s, key, v);
      }
    } else {
      var rest := Insert(x, s[1..], key);
      assert SortedBy(s[1..], key);
      calc {
        WithKey(Insert(x, s, key), key, v);
        WithKey([s[0]] + rest, key, v);
        { WithKeyConcat([s[0]], rest, key, v); }
        WithKey([s[0]], key, v) + WithKey(rest, key, v);
        { InsertWithKey(x, s[1..], key, v); }
        WithKey([s[0]], key, v) + (WithKey(s[1..], key, v) + mine);
        { WithKeyConcat([s[0]], s[1..], key, v); assert [s[0]] + s[1..] == s; }
        WithKey(s, key, v) + mine;
      }
    }
  }

  /**
   * Insertion sort, taking the elements of `s` in order. The result is a
   * sorted permutation of `s`, and it is stable: for every key, the elements
   * with that key appear in the same order as in `s`.
   */
  function StableSort<T>(s: seq<T>, key: T -> real): (r: seq<T>)
    ensures |r| == |s|
    ensures multiset(r) == multiset(s)
  {
    if s == [] then []
    else
      var init, x := s[..|s| - 1], s[|s| - 1];
      assert s == init + [x];
      Insert(x, StableSort(init, key), key)
  }

  lemma {:induction false} StableSortSorted<T>(s: seq<T>, key: T -> real)
    ensures SortedBy(StableSort(s, key), key)
  {
    if s != [] {
      var init := s[..|s| - 1];
      StableSortSorted(init, key);
      InsertSorted(s[|s| - 1], StableSort(init, key), key);
    }
  }

  lemma {:induction false} StableSortStable<T>(s: seq<T>, key: T -> real)
    ensures forall v :: WithKey(StableSort(s, key), key, v) == WithKey(s, key, v)
  {
    if s != [] {
      var init, x := s[..|s| - 1], s[|s| - 1];
      assert s == init + [x];
      StableSortSorted(init, key);
      StableSortStable(init, key);
      StableSortStep(init, x, StableSort(init, key), key);
    }
  }

  /** Sorting one more element inserts it into the sorted rest. */
  lemma StableSortSnoc<T>(init: seq<T>, x: T, key: T -> real)
    ensures StableSort(init + [x], key) == Insert(x, StableSort(init, key), key)
  {
    var s := init + [x];
    assert s[..|s| - 1] == init && s[|s| - 1] == x;
  }

  lemma StableSortStep<T>(init: seq<T>, x: T, sorted: seq<T>, key: T -> real)
    requires SortedBy(sorted, key)
    requires forall v :: WithKey(sorted, key, v) == WithKey(init, key, v)
    ensures forall v :: WithKey(Insert(x, sorted, key), key, v) == WithKey(init + [x], key, v)
  {
    forall v
      ensures WithKey(Insert(x, sorted, key), key, v) == WithKey(init + [x], key, v)
    {
      InsertWithKey(x, sorted, key, v);
      WithKeyConcat(init, [x], key, v);
    }
  }

  /** Equal keys are in increasing order of `rank`. */
  ghost predicate TiesOrderedBy<T>(s: seq<T>, key: T -> real, rank: T -> int)
  {
    forall i, j :: 0 <= i < j < |s| && key(s[i]) == key(s[j]) ==> rank(s[i]) < rank(s[j])
  }

  lemma TiesOrderedPrepend<T>(h: T, t: seq<T>, key: T -> real, rank: T -> int)
    requires TiesOrderedBy(t, key, rank)
    requires forall k :: 0 <= k < |t| && key(h) == key(t[k]) ==> rank(h) < rank(t[k])
    ensures TiesOrderedBy([h] + t, key, rank)
  {
    var r := [h] + t;
    forall i, j | 0 <= i < j < |r| && key(r[i]) == key(r[j])
      ensures rank(r[i]) < rank(r[j])
    {
      if i == 0 {
        assert r[j] == t[j - 1];
      } else {
        assert r[i] == t[i - 1] && r[j] == t[j - 1];
      }
    }
  }

  lemma {:induction false} InsertTiesOrdered<T>(x: T, s: seq<T>, key: T -> real, rank: T -> int)
    requires SortedBy(s, key) && TiesOrderedBy(s, key, rank)
    requires forall y :: y in s ==> rank(y) < rank(x)
    ensures TiesOrderedBy(Insert(x, s, key), key, rank)
  {
    if s == [] {
    } else if key(x) < key(s[0]) {
      TiesOrderedPrepend(x, s, key, rank);
    } else {
      var rest := Insert(x, s[1..], key);
      assert SortedBy(s[1..], key) && TiesOrderedBy(s[1..], key, rank);
      InsertTiesOrdered(x, s[1..], key, rank);
      forall k | 0 <= k < |rest| && key(s[0]) == key(rest[k])
        ensures rank(s[0]) < rank(rest[k])
      {
        var y := rest[k];
        assert y in multiset(rest);
        if y != x {
          assert y in multiset(s[1..]);
          var m :| 0 <= m < |s[1..]| && s[1..][m] == y;
          assert s[m + 1] == y;
        }
      }
      TiesOrderedPrepend(s[0], rest, key, rank);
    }
  }

  /**
   * When `s` is in strictly increasing `rank` order, the sort leaves elements
   * with equal keys in increasing `rank` order.
   */
  lemma {:induction false} StableSortTiesOrdered<T>(s: seq<T>, key: T -> real, rank: T -> int)
    requires forall i, j :: 0 <= i < j < |s| ==> rank(s[i]) < rank(s[j])
    ensures TiesOrderedBy(StableSort(s, key), key, rank)
  {
    if s != [] {
      var init, x := s[..|s| - 1], s[|s| - 1];
      assert s == init + [x];
      StableSortTiesOrdered(init, key, rank);
      StableSortSorted(init, key);
      var sorted := StableSort(init, key);
      forall y | y in sorted
        ensures rank(y) < rank(x)
      {
        assert y in multiset(init);
        var k :| 0 <= k < |init| && init[k] == y;
      }
      InsertTiesOrdered(x, sorted, key, rank);
    }
  }

  /**
   * The first `m` elements of the sorted sequence have the least keys: every
   * element of `s` not among them has a key at least as large as each of them.
   */
  lemma SortedPrefixLeast<T>(s: seq<T>, key: T -> real, m: nat)
    requires m <= |s|
    ensures var sorted := StableSort(s, key);
      forall x, k :: x in multiset(s) - multiset(sorted[..m]) && 0 <= k < m ==> key(sorted[k]) <= key(x)
  {
    StableSortSorted(s, key);
    PrefixLeast(s, StableSort(s, key), key, m);
  }

  lemma PrefixLeast<T>(s: seq<T>, sorted: seq<T>, key: T -> real, m: nat)
    requires m <= |sorted| && multiset(sorted) == multiset(s) && SortedBy(sorted, key)
    ensures forall x, k :: x in multiset(s) - multiset(sorted[..m]) && 0 <= k < m ==> key(sorted[k]) <= key(x)
  {
    assert sorted == sorted[..m] + sorted[m..];
    forall x, k | x in multiset(s) - multiset(sorted[..m]) && 0 <= k < m
      ensures key(sorted[k]) <= key(x)
    {
      assert x in multiset(sorted[m..]);
      var j :| 0 <= j < |sorted[m..]| && sorted[m..][j] == x;
      assert sorted[m + j] == x;
    }
  }
}
