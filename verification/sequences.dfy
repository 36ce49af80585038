/**
  Sequence operations behind `Array.prototype.filter` and
  `Array.prototype.sort`. `sort` is stable since ECMAScript 2019; here it is a
  stable insertion sort by an integer key, proved to return a sorted
  permutation of its input.
 */
module Sequences {

  /** `a` is `b` with some elements left out, the rest in their order. */
  ghost predicate IsSubsequence<T>(a: seq<T>, b: seq<T>) {
    if b == [] then a == []
    else (a != [] && a[0] == b[0] && IsSubsequence(a[1..], b[1..])) || IsSubsequence(a, b[1..])
  }

  /** `s.filter(keep)`: the elements that pass, in their order. */
  function Filter<T>(s: seq<T>, keep: T -> bool): (r: seq<T>)
    ensures |r| <= |s|
    ensures IsSubsequence(r, s)
    ensures forall x :: x in r ==> x in s && keep(x)
    ensures forall x :: x in s && keep(x) ==> x in r
    ensures forall x | x in s && keep(x) :: multiset(r)[x] == multiset(s)[x]
  {
    if s == [] then []
    else if keep(s[0]) then
      var rest := Filter(s[1..], keep);
      assert ([s[0]] + rest)[1..] == rest;
      assert s == [s[0]] + s[1..];
      [s[0]] + rest
    else
      assert s == [s[0]] + s[1..];
      Filter(s[1..], keep)
  }

  /** A filter that keeps everything returns its input. */
  lemma {:induction false} FilterAll<T>(s: seq<T>, keep: T -> bool)
    requires forall i :: 0 <= i < |s| ==> keep(s[i])
    ensures Filter(s, keep) == s
  {
    if s != [] {
      FilterAll(s[1..], keep);
    }
  }

  /** Replacing only elements that are `touched`, each by an element that is
      `touched` too, keeps how often every other element occurs. */
  lemma {:induction false} ReplaceKeepsCounts<T>(s: seq<T>, t: seq<T>, touched: T -> bool)
    requires |s| == |t|
    requires forall i :: 0 <= i < |s| ==> t[i] == s[i] || (touched(s[i]) && touched(t[i]))
    ensures forall x | !touched(x) :: multiset(t)[x] == multiset(s)[x]
  {
    if s != [] {
      ReplaceKeepsCounts(s[1..], t[1..], touched);
      assert s == [s[0]] + s[1..];
      assert t == [t[0]] + t[1..];
    }
  }

  /** Ascending by `key`. */
  predicate SortedBy<T>(s: seq<T>, key: T -> int) {
    forall i, j :: 0 <= i < j < |s| ==> key(s[i]) <= key(s[j])
  }

  /** Puts `x` in front of the first element whose key is not smaller. */
  function Insert<T>(x: T, s: seq<T>, key: T -> int): (r: seq<T>)
    ensures multiset(r) == multiset(s) + multiset{x}
  {
    if s == [] || key(x) <= key(s[0]) then [x] + s
    else
      assert s == [s[0]] + s[1..];
      [s[0]] + Insert(x, s[1..], key)
  }

  /** Inserting into a sorted sequence keeps it sorted. */
  lemma {:induction false} InsertSorted<T>(x: T, s: seq<T>, key: T -> int)
    requires SortedBy(s, key)
    ensures SortedBy(Insert(x, s, key), key)
  {
    if s != [] && key(x) > key(s[0]) {
      var rest := Insert(x, s[1..], key);
      InsertSorted(x, s[1..], key);
      forall y | y in rest ensures key(s[0]) <= key(y) {
        assert y in multiset(rest);
      }
    }
  }

  /** `s.sort((a, b) => key(a) - key(b))`: stable, so elements with equal
      keys keep their order. */
  function SortBy<T>(s: seq<T>, key: T -> int): seq<T> {
    if s == [] then [] else Insert(s[0], SortBy(s[1..], key), key)
  }

  /** The sort returns its input, reordered, in ascending order of keys. */
  lemma SortBySpec<T>(s: seq<T>, key: T -> int)
    ensures SortedBy(SortBy(s, key), key)
    ensures multiset(SortBy(s, key)) == multiset(s)
    ensures |SortBy(s, key)| == |s|
  {
    SortBySorted(s, key);
    SortByPermutes(s, key);
  }

  lemma {:induction false} SortBySorted<T>(s: seq<T>, key: T -> int)
    ensures SortedBy(SortBy(s, key), key)
  {
    if s != [] {
      SortBySorted(s[1..], key);
      InsertSorted(s[0], SortBy(s[1..], key), key);
    }
  }

  lemma {:induction false} SortByPermutes<T>(s: seq<T>, key: T -> int)
    ensures multiset(SortBy(s, key)) == multiset(s)
    ensures |SortBy(s, key)| == |s|
  {
    if s != [] {
      SortByPermutes(s[1..], key);
      assert s == [s[0]] + s[1..];
    }
    assert |multiset(SortBy(s, key))| == |SortBy(s, key)|;
  }

  /** No two elements share an identifier. */
  ghost predicate DistinctBy<T, K>(s: seq<T>, ident: T -> K) {
    forall i, j :: 0 <= i < j < |s| ==> ident(s[i]) != ident(s[j])
  }

  /** A sequence with distinct identifiers still has them after sorting. */
  lemma {:induction false} SortByKeepsDistinct<T, K>(s: seq<T>, key: T -> int, ident: T -> K)
    requires DistinctBy(s, ident)
    ensures DistinctBy(SortBy(s, key), ident)
  {
    if s != [] {
      var rest := SortBy(s[1..], key);
      SortByKeepsDistinct(s[1..], key, ident);
      SortBySpec(s[1..], key);
      forall y | y in rest ensures ident(y) != ident(s[0]) {
        assert y in multiset(rest);
        assert y in multiset(s[1..]);
        var j :| 0 <= j < |s[1..]| && s[1..][j] == y;
        assert s[j + 1] == y;
      }
      InsertKeepsDistinct(s[0], rest, key, ident);
    }
  }

  lemma {:induction false} InsertKeepsDistinct<T, K>(x: T, s: seq<T>, key: T -> int, ident: T -> K)
    requires DistinctBy(s, ident)
    requires forall y :: y in s ==> ident(y) != ident(x)
    ensures DistinctBy(Insert(x, s, key), ident)
  {
    if s != [] && key(x) > key(s[0]) {
      InsertKeepsDistinct(x, s[1..], key, ident);
      var rest := Insert(x, s[1..], key);
      forall y | y in rest ensures ident(y) != ident(s[0]) {
        assert y in multiset(rest);
        assert y in s[1..] || y == x;
      }
    }
  }
}
