/**
  Sequence operations the dashboard's reshaping code relies on:
  `[...new Set(s)]` (first-appearance de-duplication), `Array.prototype.find`
  style first occurrences, `flatMap`, and `Array.prototype.sort` with a numeric
  comparator (a stable sort, as ECMAScript 2019 requires).
*/
module Sequences {

  /** No element occurs twice in `s`. */
  predicate NoDup<T(==)>(s: seq<T>) {
    forall i, j | 0 <= i < j < |s| :: s[i] != s[j]
  }

  /** `s` lists the elements of `keys`, each exactly once (what `Object.keys` yields, in some order). */
  ghost predicate Enumerates<T(!new)>(s: seq<T>, keys: set<T>) {
    NoDup(s) && forall x :: x in s <==> x in keys
  }

  /** A duplicate-free listing of a set is as long as the set is large. */
  lemma {:induction false} EnumerationSize<T(!new)>(s: seq<T>, keys: set<T>)
    requires Enumerates(s, keys)
    ensures |s| == |keys|
    decreases |s|
  {
    if s != [] {
      var x := s[|s| - 1];
      var p := s[..|s| - 1];
      assert x !in p;
      forall y
        ensures y in p <==> y in keys - {x}
      {
        if y in keys - {x} {
          assert y in s;
          var i :| 0 <= i < |s| && s[i] == y;
          assert i != |s| - 1;
          assert p[i] == y;
        }
      }
      EnumerationSize(p, keys - {x});
    }
  }

  /** A rearrangement of a duplicate-free sequence is duplicate-free. */
  lemma NoDupPermutation<T>(s: seq<T>, r: seq<T>)
    requires NoDup(s) && multiset(r) == multiset(s)
    ensures NoDup(r)
  {
    forall x | x in multiset(s)
      ensures multiset(s)[x] == 1
    {
      NoDupOnce(s, x);
    }
    forall i, j | 0 <= i < j < |r|
      ensures r[i] != r[j]
    {
      var x := r[i];
      assert r == r[..j] + r[j..];
      assert x in r[..j] && x in multiset(s);
      assert multiset(r[j..])[x] == 0;
      assert r[j] in multiset(r[j..]);
    }
  }

  /** A rearrangement has the same length and the same elements. */
  lemma PermutationElements<T>(s: seq<T>, r: seq<T>)
    requires multiset(r) == multiset(s)
    ensures |r| == |s|
    ensures forall x :: x in r <==> x in s
  {
    assert |multiset(r)| == |multiset(s)|;
    forall x ensures x in r <==> x in s {
      assert x in r <==> x in multiset(r);
      assert x in s <==> x in multiset(s);
    }
  }

  /** In a duplicate-free sequence every element occurs once. */
  lemma {:induction false} NoDupOnce<T>(s: seq<T>, x: T)
    requires NoDup(s) && x in s
    ensures multiset(s)[x] == 1
    decreases |s|
  {
    var last := s[|s| - 1];
    var p := s[..|s| - 1];
    assert s == p + [last];
    if x == last {
      assert x !in p;
    } else {
      NoDupOnce(p, x);
    }
  }

  /** The index of the first occurrence of `x` in `s`. */
  function FirstIndex<T(==)>(s: seq<T>, x: T): (i: nat)
    requires x in s
    ensures i < |s| && s[i] == x
    ensures forall j | 0 <= j < i :: s[j] != x
  {
    if s[0] == x then 0 else 1 + FirstIndex(s[1..], x)
  }

  /**
    `[...new Set(s)]`: the elements of `s` without repetitions, a `Set`
    remembering the order in which values were first inserted.
  */
  function Distinct<T(==,!new)>(s: seq<T>): (r: seq<T>)
    ensures NoDup(r)
    ensures forall x :: x in r <==> x in s
    decreases |s|
  {
    if s == [] then []
    else
      var d := Distinct(s[..|s| - 1]);
      assert forall x :: x in s <==> x in s[..|s| - 1] || x == s[|s| - 1] by {
        assert s == s[..|s| - 1] + [s[|s| - 1]];
      }
      if s[|s| - 1] in d then d else d + [s[|s| - 1]]
  }

  /** The first occurrence of `x` in `p` is also its first occurrence in any extension of `p`. */
  lemma FirstIndexExtend<T>(p: seq<T>, q: seq<T>, x: T)
    requires x in p
    ensures FirstIndex(p + q, x) == FirstIndex(p, x)
  {
    var k := FirstIndex(p, x);
    assert (p + q)[k] == x;
  }

  /** `Distinct(s)` keeps the values of `s` in the order in which they first appear. */
  lemma {:induction false} DistinctInFirstAppearanceOrder<T(!new)>(s: seq<T>, i: int, j: int)
    requires 0 <= i < j < |Distinct(s)|
    ensures FirstIndex(s, Distinct(s)[i]) < FirstIndex(s, Distinct(s)[j])
    decreases |s|
  {
    var p, last := s[..|s| - 1], s[|s| - 1];
    assert s == p + [last];
    var d := Distinct(p);
    var a, b := Distinct(s)[i], Distinct(s)[j];
    FirstIndexExtend(p, [last], a);
    if j < |d| {
      FirstIndexExtend(p, [last], b);
      DistinctInFirstAppearanceOrder(p, i, j);
    } else {
      assert b == last && last !in p;
      assert s[|p|] == b;
    }
  }

  /** `ss.flatMap(x => x)`: the sequences of `ss` one after another. */
  function Concat<T(!new)>(ss: seq<seq<T>>): (r: seq<T>)
    ensures forall x :: x in r <==> exists i | 0 <= i < |ss| :: x in ss[i]
    decreases |ss|
  {
    if ss == [] then []
    else
      var r := Concat(ss[..|ss| - 1]) + ss[|ss| - 1];
      assert forall i | 0 <= i < |ss| - 1 :: ss[..|ss| - 1][i] == ss[i];
      r
  }

  /** `s` is ordered by `key`, smallest first. */
  ghost predicate SortedBy<T>(s: seq<T>, key: T -> int) {
    forall i, j | 0 <= i < j < |s| :: key(s[i]) <= key(s[j])
  }

  /** Puts `x` in front of the first element of `s` whose key is not smaller than `x`'s. */
  function Insert<T>(x: T, s: seq<T>, key: T -> int): (r: seq<T>)
    ensures multiset(r) == multiset(s) + multiset{x}
    decreases |s|
  {
    if s == [] || key(x) <= key(s[0]) then [x] + s
    else
      assert s == [s[0]] + s[1..];
      [s[0]] + Insert(x, s[1..], key)
  }

  /** Inserting into an ordered sequence keeps it ordered. */
  lemma {:induction false} InsertSorted<T>(x: T, s: seq<T>, key: T -> int)
    requires SortedBy(s, key)
    ensures SortedBy(Insert(x, s, key), key)
    decreases |s|
  {
    if s != [] && key(x) > key(s[0]) {
      var rest := Insert(x, s[1..], key);
      InsertSorted(x, s[1..], key);
      forall k | 0 <= k < |rest|
        ensures key(s[0]) <= key(rest[k])
      {
        assert rest[k] in multiset(rest);
        if rest[k] != x {
          assert rest[k] in multiset(s[1..]);
          var m :| 0 <= m < |s[1..]| && s[1..][m] == rest[k];
          assert s[m + 1] == rest[k];
        }
      }
    }
  }

  /**
    `s.slice().sort((a, b) => key(a) - key(b))`: a stable insertion sort, so
    the result is ordered by `key` and is a rearrangement of `s`.
  */
  function SortBy<T>(s: seq<T>, key: T -> int): (r: seq<T>)
    ensures multiset(r) == multiset(s)
    ensures SortedBy(r, key)
    decreases |s|
  {
    if s == [] then []
    else
      assert s == [s[0]] + s[1..];
      var rest := SortBy(s[1..], key);
      InsertSorted(s[0], rest, key);
      Insert(s[0], rest, key)
  }
}
