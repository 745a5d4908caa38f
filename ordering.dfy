/**
 * ORDER BY. Every ordering a query uses is a lexicographic comparison of a list of integer
 * sort columns (descending columns are negated, strings are compared code point by code
 * point, a NULL sorts after every value). Sorting is a stable insertion sort on such keys.
 */
module Ordering {
  import opened Seqs

  /** `a` sorts no later than `b`: lexicographic order on integer lists, a proper prefix first. */
  predicate LexLe(a: seq<int>, b: seq<int>)
    decreases |a|
  {
    |a| == 0 || (|b| > 0 && (a[0] < b[0] || (a[0] == b[0] && LexLe(a[1..], b[1..]))))
  }

  lemma {:induction false} LexLeReflexive(a: seq<int>)
    ensures LexLe(a, a)
    decreases |a|
  {
    if |a| > 0 {
      LexLeReflexive(a[1..]);
    }
  }

  lemma {:induction false} LexLeTotal(a: seq<int>, b: seq<int>)
    ensures LexLe(a, b) || LexLe(b, a)
    decreases |a|
  {
    if |a| > 0 && |b| > 0 && a[0] == b[0] {
      LexLeTotal(a[1..], b[1..]);
    }
  }

  lemma {:induction false} LexLeTransitive(a: seq<int>, b: seq<int>, c: seq<int>)
    requires LexLe(a, b) && LexLe(b, c)
    ensures LexLe(a, c)
    decreases |a|
  {
    if |a| > 0 && a[0] == b[0] && b[0] == c[0] {
      LexLeTransitive(a[1..], b[1..], c[1..]);
    }
  }

  lemma {:induction false} LexLeAntisymmetric(a: seq<int>, b: seq<int>)
    requires LexLe(a, b) && LexLe(b, a)
    ensures a == b
    decreases |a|
  {
    if |a| > 0 {
      LexLeAntisymmetric(a[1..], b[1..]);
      assert a == [a[0]] + a[1..] && b == [b[0]] + b[1..];
    }
  }

  /** Comparing keys that start with one sort column each: the column decides unless it ties. */
  lemma LexLeCons(x: int, a: seq<int>, y: int, b: seq<int>)
    ensures LexLe([x] + a, [y] + b) <==> x < y || (x == y && LexLe(a, b))
  {
    assert ([x] + a)[1..] == a && ([y] + b)[1..] == b;
  }

  /** Two sort columns, as in `ORDER BY c1, c2`. */
  lemma LexLe2(x1: int, x2: int, y1: int, y2: int)
    ensures LexLe([x1, x2], [y1, y2]) <==> x1 < y1 || (x1 == y1 && x2 <= y2)
  {
    LexLeCons(x1, [x2], y1, [y2]);
    LexLeCons(x2, [], y2, []);
    assert [x1, x2] == [x1] + [x2] && [y1, y2] == [y1] + [y2];
    assert [x2] == [x2] + [] && [y2] == [y2] + [];
  }

  /** Three sort columns, as in `ORDER BY c1, c2, c3`. */
  lemma LexLe3(x1: int, x2: int, x3: int, y1: int, y2: int, y3: int)
    ensures LexLe([x1, x2, x3], [y1, y2, y3]) <==>
              x1 < y1 || (x1 == y1 && (x2 < y2 || (x2 == y2 && x3 <= y3)))
  {
    LexLeCons(x1, [x2, x3], y1, [y2, y3]);
    LexLe2(x2, x3, y2, y3);
    assert [x1, x2, x3] == [x1] + [x2, x3] && [y1, y2, y3] == [y1] + [y2, y3];
  }

  /** The rows of `s` appear in ascending order of `key`. */
  ghost predicate SortedBy<T>(s: seq<T>, key: T -> seq<int>) {
    forall i, j :: 0 <= i < j < |s| ==> LexLe(key(s[i]), key(s[j]))
  }

  /** No two rows of `s` have the same key. */
  ghost predicate KeysDistinct<T>(s: seq<T>, key: T -> seq<int>) {
    forall i, j :: 0 <= i < j < |s| ==> key(s[i]) != key(s[j])
  }

  /** Puts `x` into `s` before the first row whose key is not smaller than that of `x`. */
  function Insert<T>(x: T, s: seq<T>, key: T -> seq<int>): (r: seq<T>)
    ensures multiset(r) == multiset(s) + multiset{x}
    decreases |s|
  {
    if s == [] then [x]
    else if LexLe(key(x), key(s[0])) then [x] + s
    else
      assert s == [s[0]] + s[1..];
      [s[0]] + Insert(x, s[1..], key)
  }

  lemma {:induction false} InsertSorted<T>(x: T, s: seq<T>, key: T -> seq<int>)
    requires SortedBy(s, key)
    ensures SortedBy(Insert(x, s, key), key)
    decreases |s|
  {
    if s == [] {
    } else if LexLe(key(x), key(s[0])) {
      forall j | 0 < j < |s| ensures LexLe(key(x), key(s[j])) {
        LexLeTransitive(key(x), key(s[0]), key(s[j]));
      }
    } else {
      var rest := Insert(x, s[1..], key);
      InsertSorted(x, s[1..], key);
      LexLeTotal(key(x), key(s[0]));
      assert s == [s[0]] + s[1..];
      forall j | 0 <= j < |rest| ensures LexLe(key(s[0]), key(rest[j])) {
        assert rest[j] in multiset(rest);
      }
    }
  }

  lemma {:induction false} InsertKeysDistinct<T>(x: T, s: seq<T>, key: T -> seq<int>)
    requires KeysDistinct(s, key)
    requires forall i :: 0 <= i < |s| ==> key(s[i]) != key(x)
    ensures KeysDistinct(Insert(x, s, key), key)
    decreases |s|
  {
    if s != [] && !LexLe(key(x), key(s[0])) {
      var rest := Insert(x, s[1..], key);
      InsertKeysDistinct(x, s[1..], key);
      assert s == [s[0]] + s[1..];
      forall j | 0 <= j < |rest| ensures key(s[0]) != key(rest[j]) {
        assert rest[j] in multiset(s[1..]) + multiset{x};
        if rest[j] != x {
          assert rest[j] in s[1..];
          var k :| 0 <= k < |s[1..]| && s[1..][k] == rest[j];
          assert s[k + 1] == rest[j];
        }
      }
      var r := [s[0]] + rest;
      forall i, j | 0 <= i < j < |r| ensures key(r[i]) != key(r[j]) {
        if i > 0 {
          assert r[i] == rest[i - 1] && r[j] == rest[j - 1];
        }
      }
    }
  }

  /** ORDER BY `key`: a permutation of `s` in ascending key order; rows with equal keys keep
      their relative order. */
  function SortByKey<T>(s: seq<T>, key: T -> seq<int>): (r: seq<T>)
    ensures multiset(r) == multiset(s)
  {
    if s == [] then []
    else
      assert s == [s[0]] + s[1..];
      Insert(s[0], SortByKey(s[1..], key), key)
  }

  lemma {:induction false} SortByKeySorted<T>(s: seq<T>, key: T -> seq<int>)
    ensures SortedBy(SortByKey(s, key), key)
  {
    if s != [] {
      SortByKeySorted(s[1..], key);
      InsertSorted(s[0], SortByKey(s[1..], key), key);
    }
  }

  lemma {:induction false} SortByKeyKeysDistinct<T>(s: seq<T>, key: T -> seq<int>)
    requires KeysDistinct(s, key)
    ensures KeysDistinct(SortByKey(s, key), key)
  {
    if s != [] {
      var rest := SortByKey(s[1..], key);
      SortByKeyKeysDistinct(s[1..], key);
      assert s == [s[0]] + s[1..];
      forall i | 0 <= i < |rest| ensures key(rest[i]) != key(s[0]) {
        assert rest[i] in multiset(s[1..]);
      }
      InsertKeysDistinct(s[0], rest, key);
    }
  }

  /** What the queries use of ORDER BY: the same rows, ascending by key, duplicates and
      distinct keys carried over. */
  lemma SortByKeyFacts<T>(s: seq<T>, key: T -> seq<int>)
    ensures |SortByKey(s, key)| == |s|
    ensures forall y :: y in SortByKey(s, key) <==> y in s
    ensures SortedBy(SortByKey(s, key), key)
    ensures KeysDistinct(s, key) ==> KeysDistinct(SortByKey(s, key), key)
    ensures Distinct(s) ==> Distinct(SortByKey(s, key))
  {
    var r := SortByKey(s, key);
    assert |multiset(r)| == |multiset(s)|;
    forall y ensures y in r <==> y in s {
      assert y in r <==> y in multiset(r);
    }
    SortByKeySorted(s, key);
    if KeysDistinct(s, key) {
      SortByKeyKeysDistinct(s, key);
    }
    if Distinct(s) {
      DistinctMultiset(s);
      MultisetDistinct(r);
    }
  }

  /** A duplicate-free sequence holds each element once. */
  lemma {:induction false} DistinctMultiset<T>(s: seq<T>)
    requires Distinct(s)
    ensures forall x :: multiset(s)[x] <= 1
  {
    if s != [] {
      assert s == [s[0]] + s[1..];
      DistinctMultiset(s[1..]);
    }
  }

  /** A sequence that holds each element at most once is duplicate-free. */
  lemma MultisetDistinct<T>(s: seq<T>)
    requires forall x :: multiset(s)[x] <= 1
    ensures Distinct(s)
  {
    forall i, j | 0 <= i < j < |s| ensures s[i] != s[j] {
      assert s == s[..j] + s[j..];
      assert multiset(s) == multiset(s[..j]) + multiset(s[j..]);
      assert s[i] in multiset(s[..j]) && s[j] in multiset(s[j..]);
      assert multiset(s)[s[i]] == multiset(s[..j])[s[i]] + multiset(s[j..])[s[i]];
    }
  }

  /** The first `n` rows of an ordered result (FETCH FIRST n ROWS ONLY, or ROWNUM <= n). */
  function Take<T>(s: seq<T>, n: int): (r: seq<T>)
    ensures |r| == Cap(n, |s|)
    ensures forall i :: 0 <= i < |r| ==> r[i] == s[i]
  {
    s[..Cap(n, |s|)]
  }

  /** Every row a capped, sorted result leaves out sorts no earlier than every row it keeps. */
  lemma TakeKeepsTop<T>(s: seq<T>, key: T -> seq<int>, n: int, kept: T, omitted: T)
    requires SortedBy(s, key) && Distinct(s)
    requires kept in Take(s, n) && omitted in s && omitted !in Take(s, n)
    ensures LexLe(key(kept), key(omitted))
  {
    var t := Take(s, n);
    assert t == s[..|t|];
    var i :| 0 <= i < |t| && t[i] == kept;
    var j :| 0 <= j < |s| && s[j] == omitted;
  }

  /**
   * `ranked` is an order the engine may return `rows` in under a sort key that leaves ties
   * open: the same rows, ascending by key.
   */
  ghost predicate IsOrderingOf<T>(ranked: seq<T>, rows: seq<T>, key: T -> seq<int>) {
    multiset(ranked) == multiset(rows) && SortedBy(ranked, key)
  }

  /** The stable sort is one of those orders. */
  lemma SortByKeyIsOrdering<T>(rows: seq<T>, key: T -> seq<int>)
    ensures IsOrderingOf(SortByKey(rows, key), rows, key)
  {
    SortByKeySorted(rows, key);
  }

  /** Every order of the rows has the same members, length and duplicate-freedom. */
  lemma OrderingFacts<T>(ranked: seq<T>, rows: seq<T>, key: T -> seq<int>)
    requires IsOrderingOf(ranked, rows, key)
    ensures |ranked| == |rows|
    ensures forall x :: x in ranked <==> x in rows
    ensures Distinct(rows) ==> Distinct(ranked)
  {
    assert |multiset(ranked)| == |multiset(rows)|;
    forall x ensures x in ranked <==> x in rows {
      assert x in ranked <==> x in multiset(ranked);
      assert x in rows <==> x in multiset(rows);
    }
    if Distinct(rows) {
      DistinctMultiset(rows);
      MultisetDistinct(ranked);
    }
  }
}
