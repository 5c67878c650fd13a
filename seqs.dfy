/** Generic sequence operations shared by the tasks: filtering, flattening, first occurrences. */
module Seqs {

  /** The elements of `s` that satisfy `p`, in their original order (a list comprehension with an `if`). */
  function Filter<T(!new)>(s: seq<T>, p: T -> bool): (r: seq<T>)
    ensures |r| <= |s|
  {
    if s == [] then []
    else (if p(s[0]) then [s[0]] else []) + Filter(s[1..], p)
  }

  /** Filtering keeps every occurrence of the elements that pass and drops the others. */
  lemma {:induction false} FilterMultiset<T(!new)>(s: seq<T>, p: T -> bool)
    ensures forall x :: multiset(Filter(s, p))[x] == if p(x) then multiset(s)[x] else 0
    ensures forall x :: x in Filter(s, p) <==> x in s && p(x)
  {
    if s != [] {
      assert s == [s[0]] + s[1..];
      FilterMultiset(s[1..], p);
    }
  }

  lemma {:induction false} FilterConcat<T(!new)>(a: seq<T>, b: seq<T>, p: T -> bool)
    ensures Filter(a + b, p) == Filter(a, p) + Filter(b, p)
  {
    if a == [] {
      assert a + b == b;
    } else {
      var h := if p(a[0]) then [a[0]] else [];
      assert (a + b)[0] == a[0];
      assert (a + b)[1..] == a[1..] + b;
      assert Filter(a + b, p) == h + Filter(a[1..] + b, p);
      FilterConcat(a[1..], b, p);
      assert Filter(a, p) == h + Filter(a[1..], p);
    }
  }

  /** Filtering keeps a sequence whose every element passes. */
  lemma {:induction false} FilterAll<T(!new)>(s: seq<T>, p: T -> bool)
    requires forall i :: 0 <= i < |s| ==> p(s[i])
    ensures Filter(s, p) == s
  {
    if s != [] {
      FilterAll(s[1..], p);
    }
  }

  /** The concatenation of a sequence of sequences. */
  function Concat<T>(ss: seq<seq<T>>): seq<T>
  {
    if ss == [] then [] else ss[0] + Concat(ss[1..])
  }

  predicate NoDup<T(==)>(s: seq<T>)
  {
    forall i, j :: 0 <= i < j < |s| ==> s[i] != s[j]
  }

  /** The index of the first occurrence of `x` in `s`, or |s| when there is none. */
  function FirstIndex<T(==)>(s: seq<T>, x: T): (k: nat)
    ensures k <= |s|
    ensures k < |s| <==> x in s
    ensures k < |s| ==> s[k] == x && x !in s[..k]
  {
    if s == [] then 0
    else if s[0] == x then 0
    else
      assert s[1..][..FirstIndex(s[1..], x)] == s[1..FirstIndex(s[1..], x) + 1];
      1 + FirstIndex(s[1..], x)
  }

  lemma FirstIndexUnique<T>(s: seq<T>, x: T, k: nat)
    requires k < |s| && s[k] == x && x !in s[..k]
    ensures FirstIndex(s, x) == k
  {
  }

  /** Appending elements does not move a first occurrence already present. */
  lemma FirstIndexOfPrefix<T>(a: seq<T>, b: seq<T>)
    ensures forall x :: x in a ==> FirstIndex(a + b, x) == FirstIndex(a, x)
  {
    forall x | x in a
      ensures FirstIndex(a + b, x) == FirstIndex(a, x)
    {
      var k := FirstIndex(a, x);
      assert (a + b)[..k] == a[..k];
      FirstIndexUnique(a + b, x, k);
    }
  }

  /**
   * The distinct elements of `s` in order of first occurrence: the key order
   * of a Python dict (a `Counter`) filled from `s`.
   */
  function Distinct<T(==,!new)>(s: seq<T>): (d: seq<T>)
    ensures NoDup(d)
    ensures forall x :: x in d <==> x in s
    ensures forall i, j :: 0 <= i < j < |d| ==> FirstIndex(s, d[i]) < FirstIndex(s, d[j])
  {
    if s == [] then []
    else
      var init, x := s[..|s| - 1], s[|s| - 1];
      assert s == init + [x];
      var d := Distinct(init);
      FirstIndexOfPrefix(init, [x]);
      if x in d then d
      else
        FirstIndexUnique(s, x, |init|);
        d + [x]
  }

  /** A duplicate-free sequence has as many elements as its set. */
  lemma {:induction false} NoDupCardinality<T>(s: seq<T>)
    requires NoDup(s)
    ensures |set x | x in s| == |s|
  {
    if s != [] {
      var init := s[..|s| - 1];
      NoDupCardinality(init);
      assert (set x | x in s) == (set x | x in init) + {s[|s| - 1]};
      assert s[|s| - 1] !in init;
    }
  }

  function Min(a: nat, b: nat): nat
  {
    if a <= b then a else b
  }
}
