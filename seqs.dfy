/**
 * Sequence helpers shared by the queries: duplicate-free sequences (SQL DISTINCT),
 * occurrence counts (SQL COUNT per group), filtering (SQL WHERE) and row caps
 * (SQL FETCH FIRST / ROWNUM).
 */
module Seqs {

  /** No element occurs twice. */
  predicate Distinct<T(==)>(s: seq<T>) {
    forall i, j :: 0 <= i < j < |s| ==> s[i] != s[j]
  }

  /** Number of occurrences of `x` in `s`. */
  function Count<T(==)>(s: seq<T>, x: T): (n: nat)
    ensures n <= |s|
    ensures n > 0 <==> x in s
  {
    if s == [] then 0 else (if s[0] == x then 1 else 0) + Count(s[1..], x)
  }

  /** SELECT DISTINCT: the elements of `s`, each once, in order of first occurrence. */
  function Dedup<T(==,!new)>(s: seq<T>): (r: seq<T>)
    ensures Distinct(r)
    ensures forall x :: x in r <==> x in s
    ensures |r| <= |s|
  {
    if s == [] then []
    else if s[0] in s[1..] then Dedup(s[1..])
    else [s[0]] + Dedup(s[1..])
  }

  /** WHERE p: the elements of `s` that satisfy `p`, in order. */
  function Filter<T(==,!new)>(s: seq<T>, p: T -> bool): (r: seq<T>)
    ensures forall x :: x in r <==> x in s && p(x)
    ensures |r| <= |s|
    ensures Distinct(s) ==> Distinct(r)
  {
    if s == [] then []
    else if p(s[0]) then [s[0]] + Filter(s[1..], p)
    else Filter(s[1..], p)
  }

  /** The number of rows `FETCH FIRST n ROWS ONLY` keeps out of `len`; a negative `n` keeps none. */
  function Cap(n: int, len: nat): (k: nat)
    ensures k <= len
    ensures n <= 0 ==> k == 0
    ensures 0 <= n ==> k <= n
    ensures k < len ==> k == n || n < 0
  {
    if n <= 0 then 0 else if n < len then n else len
  }

  /** `s` without any occurrence of `x`. */
  function RemoveAll<T(==,!new)>(s: seq<T>, x: T): (r: seq<T>)
    ensures x !in r
    ensures forall y :: y != x ==> (y in r <==> y in s)
    ensures forall y :: y != x ==> Count(r, y) == Count(s, y)
    ensures |r| == |s| - Count(s, x)
  {
    if s == [] then []
    else if s[0] == x then RemoveAll(s[1..], x)
    else [s[0]] + RemoveAll(s[1..], x)
  }

  /** A sequence with no members is empty. */
  lemma EmptyIfNoMembers<T>(s: seq<T>)
    requires forall x :: x !in s
    ensures s == []
  {
    assert forall x :: x in multiset(s) <==> x in s;
    assert multiset(s) == multiset{};
  }

  /** SELECT f(row): each element of `s` projected by `f`, in order. */
  function MapSeq<A, B>(s: seq<A>, f: A -> B): (r: seq<B>)
    ensures |r| == |s|
    ensures forall i :: 0 <= i < |s| ==> r[i] == f(s[i])
  {
    seq(|s|, i requires 0 <= i < |s| => f(s[i]))
  }

  /** An element of a projection comes from some element of the source, and vice versa. */
  lemma MapSeqMembers<A, B>(s: seq<A>, f: A -> B)
    ensures forall y :: y in MapSeq(s, f) ==> exists x :: x in s && f(x) == y
    ensures forall x :: x in s ==> f(x) in MapSeq(s, f)
  {
    var r := MapSeq(s, f);
    forall y | y in r ensures exists x :: x in s && f(x) == y {
      var i :| 0 <= i < |r| && r[i] == y;
      assert s[i] in s;
    }
    forall x | x in s ensures f(x) in r {
      var i :| 0 <= i < |s| && s[i] == x;
      assert r[i] == f(x);
    }
  }

  /** FROM X, Y: every pair of an element of `xs` and an element of `ys`. */
  function Product<A(!new), B(!new)>(xs: seq<A>, ys: seq<B>): (r: seq<(A, B)>)
    ensures forall p :: p in r <==> p.0 in xs && p.1 in ys
    ensures |r| == |xs| * |ys|
  {
    if xs == [] then []
    else
      var first := MapSeq(ys, (y: B) => (xs[0], y));
      var rest := Product(xs[1..], ys);
      assert forall p :: p in first <==> p.0 == xs[0] && p.1 in ys by {
        MapSeqMembers(ys, (y: B) => (xs[0], y));
      }
      assert forall x :: x in xs <==> x == xs[0] || x in xs[1..];
      first + rest
  }

  /** A row of a grouped statement: the grouping columns and COUNT(*). */
  datatype Group<T> = Group(value: T, count: nat)

  /** GROUP BY with COUNT(*): each distinct element of `s` once, with its number of occurrences. */
  function GroupCounts<T(==,!new)>(s: seq<T>): (g: seq<Group<T>>)
    ensures forall e :: e in g <==> e.value in s && e.count == Count(s, e.value)
    ensures forall i, j :: 0 <= i < j < |g| ==> g[i].value != g[j].value
    ensures Distinct(g)
  {
    var d := Dedup(s);
    var g := seq(|d|, i requires 0 <= i < |d| => Group(d[i], Count(s, d[i])));
    assert forall e :: e in g <==> e.value in s && e.count == Count(s, e.value) by {
      forall e: Group<T> | e.value in s && e.count == Count(s, e.value) ensures e in g {
        var i :| 0 <= i < |d| && d[i] == e.value;
        assert g[i] == e;
      }
    }
    g
  }

  /** A projection that never merges two elements keeps a duplicate-free sequence duplicate-free. */
  lemma MapSeqDistinct<A, B>(s: seq<A>, f: A -> B)
    requires Distinct(s)
    requires forall x, y :: x in s && y in s && f(x) == f(y) ==> x == y
    ensures Distinct(MapSeq(s, f))
  {
    var r := MapSeq(s, f);
    forall i, j | 0 <= i < j < |r| ensures r[i] != r[j] {
      assert s[i] in s && s[j] in s && s[i] != s[j];
    }
  }

  /** The pairs of two duplicate-free sequences are duplicate-free. */
  lemma {:induction false} ProductDistinct<A(!new), B(!new)>(xs: seq<A>, ys: seq<B>)
    requires Distinct(xs) && Distinct(ys)
    ensures Distinct(Product(xs, ys))
  {
    if xs != [] {
      var first := MapSeq(ys, (y: B) => (xs[0], y));
      MapSeqDistinct(ys, (y: B) => (xs[0], y));
      ProductDistinct(xs[1..], ys);
      var rest := Product(xs[1..], ys);
      assert Product(xs, ys) == first + rest;
      forall i, j | 0 <= i < |first| && 0 <= j < |rest| ensures first[i] != rest[j] {
        assert rest[j].0 in xs[1..];
      }
    }
  }

  /** In a duplicate-free sequence each member occurs once. */
  lemma {:induction false} CountDistinct<T>(s: seq<T>, x: T)
    requires Distinct(s) && x in s
    ensures Count(s, x) == 1
  {
    if s[0] == x {
      assert x !in s[1..];
    } else {
      CountDistinct(s[1..], x);
    }
  }

  /** The multiset of a duplicate-free sequence holds each member once. */
  lemma {:induction false} DistinctMultiplicity<T>(s: seq<T>)
    requires Distinct(s)
    ensures forall x :: multiset(s)[x] == if x in s then 1 else 0
  {
    if s != [] {
      assert s == [s[0]] + s[1..];
      DistinctMultiplicity(s[1..]);
    }
  }

  /** Two duplicate-free sequences with the same members have the same length. */
  lemma DistinctSameMembersSameLength<T>(s: seq<T>, t: seq<T>)
    requires Distinct(s) && Distinct(t)
    requires forall x :: x in s <==> x in t
    ensures |s| == |t|
  {
    DistinctMultiplicity(s);
    DistinctMultiplicity(t);
    assert multiset(s) == multiset(t);
    assert |multiset(s)| == |s| && |multiset(t)| == |t|;
  }

  /** The product of two counts is a count (stated apart, so that the solver need not find it
      in a large context). */
  lemma NatProduct(x: nat, y: nat)
    ensures x * y >= 0
  {
  }

  /** Filtering a concatenation counts the matches of each part. */
  lemma {:induction false} FilterAppend<T(!new)>(a: seq<T>, b: seq<T>, p: T -> bool)
    ensures |Filter(a + b, p)| == |Filter(a, p)| + |Filter(b, p)|
  {
    if a != [] {
      assert (a + b)[0] == a[0] && (a + b)[1..] == a[1..] + b;
      FilterAppend(a[1..], b, p);
      assert |Filter(a + b, p)| == (if p(a[0]) then 1 else 0) + |Filter(a[1..] + b, p)|;
    } else {
      assert a + b == b;
    }
  }

  /**
   * Counting a value in a projection of a filtered sequence: the occurrences of `y` are the
   * rows that pass the filter and project to `y`, i.e. the rows satisfying `q`.
   */
  lemma {:induction false} CountMappedFilter<A(!new), B>(s: seq<A>, p: A -> bool, f: A -> B, y: B, q: A -> bool)
    requires forall r :: r in s ==> (q(r) <==> p(r) && f(r) == y)
    ensures Count(MapSeq(Filter(s, p), f), y) == |Filter(s, q)|
  {
    if s != [] {
      assert s[0] in s;
      CountMappedFilter(s[1..], p, f, y, q);
      var rest := Filter(s[1..], p);
      if p(s[0]) {
        var m := MapSeq([s[0]] + rest, f);
        assert m[0] == f(s[0]) && m[1..] == MapSeq(rest, f);
      }
    }
  }

  /**
   * The pairs of `x` with the rows of a duplicate-free `ys`, when at most one row pairs with
   * `x` under `q`: one match if some row does, none otherwise.
   */
  lemma {:induction false} PairsWithOne<A(!new), B(!new)>(x: A, ys: seq<B>, q: ((A, B)) -> bool)
    requires Distinct(ys)
    requires forall y1, y2 :: y1 in ys && y2 in ys && q((x, y1)) && q((x, y2)) ==> y1 == y2
    ensures |Filter(MapSeq(ys, (y: B) => (x, y)), q)| == if exists y :: y in ys && q((x, y)) then 1 else 0
  {
    if ys != [] {
      var m := MapSeq(ys, (y: B) => (x, y));
      assert m == [(x, ys[0])] + MapSeq(ys[1..], (y: B) => (x, y));
      assert m[0] == (x, ys[0]) && m[1..] == MapSeq(ys[1..], (y: B) => (x, y));
      PairsWithOne(x, ys[1..], q);
      if q((x, ys[0])) {
        forall y | y in ys[1..] ensures !q((x, y)) {
          assert y in ys && y != ys[0];
        }
      }
      assert forall y :: y in ys <==> y == ys[0] || y in ys[1..];
    }
  }

  /**
   * A join in which each row of `xs` meets at most one row of a duplicate-free `ys`: it has
   * as many rows as `xs` has rows that meet one, those satisfying `qx`.
   */
  lemma {:induction false} JoinAtMostOne<A(!new), B(!new)>(xs: seq<A>, ys: seq<B>, q: ((A, B)) -> bool, qx: A -> bool)
    requires Distinct(ys)
    requires forall x :: x in xs ==> (qx(x) <==> exists y :: y in ys && q((x, y)))
    requires forall x, y1, y2 :: x in xs && y1 in ys && y2 in ys && q((x, y1)) && q((x, y2)) ==> y1 == y2
    ensures |Filter(Product(xs, ys), q)| == |Filter(xs, qx)|
  {
    if xs != [] {
      var first := MapSeq(ys, (y: B) => (xs[0], y));
      assert Product(xs, ys) == first + Product(xs[1..], ys);
      FilterAppend(first, Product(xs[1..], ys), q);
      assert xs[0] in xs;
      PairsWithOne(xs[0], ys, q);
      JoinAtMostOne(xs[1..], ys, q, qx);
    }
  }
}
