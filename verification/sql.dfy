/**
 * The relational operations the SELECT statements of the service are built from,
 * over tables held as sequences of rows in table (rowid) order: `WHERE` as a filter,
 * an inner `JOIN` as a partial map, a projection as a map, and `ORDER BY` as a sort by
 * a total preorder, plus SQLite's BINARY collation of TEXT values.
 */
module Sql {
  import opened Outcomes

  /** `WHERE p`: the rows satisfying `p`, in table order. */
  function Filter<T(!new)>(s: seq<T>, p: T -> bool): (r: seq<T>)
    ensures |r| <= |s|
    ensures forall x :: x in r <==> x in s && p(x)
    ensures multiset(r) <= multiset(s)
  {
    if s == [] then []
    else
      assert s == [s[0]] + s[1..];
      (if p(s[0]) then [s[0]] else []) + Filter(s[1..], p)
  }

  /** A row that passes is kept as often as the table holds it; a row that fails, never. */
  lemma {:induction false} FilterCount<T(!new)>(s: seq<T>, p: T -> bool, x: T)
    ensures multiset(Filter(s, p))[x] == if p(x) then multiset(s)[x] else 0
    decreases |s|
  {
    if s != [] {
      FilterCount(s[1..], p, x);
      assert s == [s[0]] + s[1..];
    }
  }

  /** Two conditions that hold of the same rows select the same rows. */
  lemma {:induction false} FilterExt<T(!new)>(s: seq<T>, p: T -> bool, q: T -> bool)
    requires forall x :: p(x) == q(x)
    ensures Filter(s, p) == Filter(s, q)
    decreases |s|
  {
    if s != [] {
      FilterExt(s[1..], p, q);
    }
  }

  /** Filtering works table segment by table segment, so the kept rows keep their order. */
  lemma {:induction false} FilterAppend<T(!new)>(a: seq<T>, b: seq<T>, p: T -> bool)
    ensures Filter(a + b, p) == Filter(a, p) + Filter(b, p)
    decreases |a|
  {
    if a == [] {
      assert a + b == b;
    } else {
      assert (a + b)[0] == a[0];
      assert (a + b)[1..] == a[1..] + b;
      FilterAppend(a[1..], b, p);
    }
  }

  /** A projection of every row. */
  function Map<T(!new), U(!new)>(s: seq<T>, f: T -> U): (r: seq<U>)
    ensures |r| == |s|
    ensures forall i :: 0 <= i < |s| ==> r[i] == f(s[i])
    ensures forall y :: y in r <==> exists x :: x in s && f(x) == y
  {
    if s == [] then []
    else
      assert forall x :: x in s ==> x == s[0] || x in s[1..];
      [f(s[0])] + Map(s[1..], f)
  }

  /** The projected values of the rows satisfying `p`. */
  lemma MapFilterMembers<T(!new), U(!new)>(s: seq<T>, p: T -> bool, f: T -> U)
    ensures forall y :: y in Map(Filter(s, p), f) <==> exists x :: x in s && p(x) && f(x) == y
  {
  }

  /**
   * An inner join seen from its driving table: each row yields the joined row, or nothing.
   * A joined row appears once for every driving row that yields it.
   */
  function FilterMap<T(!new), U(!new)>(s: seq<T>, f: T -> Option<U>): (r: seq<U>)
    ensures |r| <= |s|
    ensures forall x :: x in s && f(x).Some? ==> f(x).value in r
    ensures forall y :: y in r ==> exists x :: x in s && f(x) == Some(y)
    ensures (forall x :: x in s ==> f(x).Some?) ==> |r| == |s|
  {
    if s == [] then []
    else
      var rest := FilterMap(s[1..], f);
      assert forall x :: x in s ==> x == s[0] || x in s[1..];
      match f(s[0])
      case None => rest
      case Some(y) => [y] + rest
  }

  /** A joined row appears once for every driving row that yields it. */
  lemma {:induction false} FilterMapCount<T(!new), U(!new)>(s: seq<T>, f: T -> Option<U>, y: U)
    ensures multiset(FilterMap(s, f))[y] == |Filter(s, (x: T) => f(x) == Some(y))|
    decreases |s|
  {
    if s != [] {
      FilterMapCount(s[1..], f, y);
      var p := (x: T) => f(x) == Some(y);
      assert Filter(s, p) == (if p(s[0]) then [s[0]] else []) + Filter(s[1..], p);
    }
  }

  /** The same count, for any condition that picks the driving rows yielding `y`. */
  lemma FilterMapCountWhere<T(!new), U(!new)>(s: seq<T>, f: T -> Option<U>, y: U, p: T -> bool)
    requires forall x :: p(x) == (f(x) == Some(y))
    ensures multiset(FilterMap(s, f))[y] == |Filter(s, p)|
  {
    FilterMapCount(s, f, y);
    FilterExt(s, (x: T) => f(x) == Some(y), p);
  }

  /** Joining works table segment by table segment, so the joined rows keep their order. */
  lemma {:induction false} FilterMapAppend<T(!new), U(!new)>(a: seq<T>, b: seq<T>, f: T -> Option<U>)
    ensures FilterMap(a + b, f) == FilterMap(a, f) + FilterMap(b, f)
    decreases |a|
  {
    if a == [] {
      assert a + b == b;
    } else {
      assert (a + b)[0] == a[0];
      assert (a + b)[1..] == a[1..] + b;
      FilterMapAppend(a[1..], b, f);
    }
  }

  /** The present values among the first `n` options, in order. */
  function Somes<T>(s: seq<Option<T>>, n: nat): (r: seq<T>)
    requires n <= |s|
    ensures |r| <= n
  {
    if n == 0 then []
    else
      match s[n - 1]
      case None => Somes(s, n - 1)
      case Some(x) => Somes(s, n - 1) + [x]
  }

  /** Every present value among the first `n` is collected, and nothing else is. */
  lemma {:induction false} SomesExact<T>(s: seq<Option<T>>, n: nat)
    requires n <= |s|
    ensures forall i :: 0 <= i < n && s[i].Some? ==> s[i].value in Somes(s, n)
    ensures forall x :: x in Somes(s, n) ==> exists i :: 0 <= i < n && s[i] == Some(x)
  {
    if n > 0 {
      SomesExact(s, n - 1);
    }
  }

  /** A prefix one longer is the prefix with the next row appended. */
  lemma PrefixStep<T>(s: seq<T>, i: int)
    requires 0 <= i < |s|
    ensures s[..i + 1] == s[..i] + [s[i]]
    ensures s[..i + 1][..i] == s[..i]
  {
  }

  /** The empty prefix and the whole prefix. */
  lemma PrefixEnds<T>(s: seq<T>)
    ensures s[..0] == [] && s[..|s|] == s
  {
  }

  /** `ORDER BY`: every row may precede the next one. */
  predicate Sorted<T>(s: seq<T>, le: (T, T) -> bool) {
    forall i :: 0 < i < |s| ==> le(s[i - 1], s[i])
  }

  /** Every two rows are comparable. */
  ghost predicate Total<T(!new)>(le: (T, T) -> bool) {
    forall a, b :: le(a, b) || le(b, a)
  }

  ghost predicate Transitive<T(!new)>(le: (T, T) -> bool) {
    forall a, b, c :: le(a, b) && le(b, c) ==> le(a, c)
  }

  /** Under a transitive order, a sorted sequence has every row before every later one. */
  lemma {:induction false} SortedPairwise<T(!new)>(s: seq<T>, le: (T, T) -> bool, i: int, j: int)
    requires Transitive(le) && Sorted(s, le)
    requires 0 <= i < j < |s|
    ensures le(s[i], s[j])
    decreases j - i
  {
    if i + 1 < j {
      SortedPairwise(s, le, i, j - 1);
      assert le(s[j - 1], s[j]);
    }
  }

  /** `x` placed before the first row it may precede. */
  function Insert<T>(x: T, s: seq<T>, le: (T, T) -> bool): (r: seq<T>)
    ensures |r| == |s| + 1
    ensures multiset(r) == multiset(s) + multiset{x}
    ensures r[0] == x || (s != [] && r[0] == s[0])
  {
    if s == [] then [x]
    else if le(x, s[0]) then [x] + s
    else
      assert s == [s[0]] + s[1..];
      [s[0]] + Insert(x, s[1..], le)
  }

  lemma {:induction false} InsertSorted<T(!new)>(x: T, s: seq<T>, le: (T, T) -> bool)
    requires Total(le) && Sorted(s, le)
    ensures Sorted(Insert(x, s, le), le)
    decreases |s|
  {
    if s != [] && !le(x, s[0]) {
      var rest := Insert(x, s[1..], le);
      InsertSorted(x, s[1..], le);
      assert le(s[0], x);
      assert |s| > 1 ==> le(s[0], s[1]);
      var r := [s[0]] + rest;
      forall i | 0 < i < |r| ensures le(r[i - 1], r[i]) {
        if i > 1 {
          assert r[i - 1] == rest[i - 2] && r[i] == rest[i - 1];
        }
      }
    }
  }

  /**
   * `ORDER BY le`: the same rows, arranged so that no row comes after one it must
   * precede. Rows that tie keep no particular order in SQLite; the model fixes one.
   */
  function SortBy<T(!new)>(s: seq<T>, le: (T, T) -> bool): (r: seq<T>)
    ensures |r| == |s|
    ensures multiset(r) == multiset(s)
    ensures forall x :: x in r <==> x in s
  {
    if s == [] then []
    else
      var rest := SortBy(s[1..], le);
      assert s == [s[0]] + s[1..];
      var r := Insert(s[0], rest, le);
      assert forall x :: x in r <==> x in multiset(r);
      r
  }

  /** Sorting by a total order yields rows in that order. */
  lemma {:induction false} SortBySorted<T(!new)>(s: seq<T>, le: (T, T) -> bool)
    requires Total(le)
    ensures Sorted(SortBy(s, le), le)
    decreases |s|
  {
    if s != [] {
      SortBySorted(s[1..], le);
      InsertSorted(s[0], SortBy(s[1..], le), le);
    }
  }

  /** SQLite's BINARY collation of TEXT: lexicographic by code unit, a prefix first. */
  predicate StrLe(a: string, b: string)
    decreases |a|
  {
    a == [] || (b != [] && (a[0] < b[0] || (a[0] == b[0] && StrLe(a[1..], b[1..]))))
  }

  lemma {:induction false} StrLeTotal(a: string, b: string)
    ensures StrLe(a, b) || StrLe(b, a)
    decreases |a|
  {
    if a != [] && b != [] && a[0] == b[0] {
      StrLeTotal(a[1..], b[1..]);
    }
  }

  lemma {:induction false} StrLeTransitive(a: string, b: string, c: string)
    requires StrLe(a, b) && StrLe(b, c)
    ensures StrLe(a, c)
    decreases |a|
  {
    if a != [] && a[0] == b[0] && b[0] == c[0] {
      StrLeTransitive(a[1..], b[1..], c[1..]);
    }
  }

  lemma {:induction false} StrLeAntisymmetric(a: string, b: string)
    requires StrLe(a, b) && StrLe(b, a)
    ensures a == b
    decreases |a|
  {
    if a != [] {
      StrLeAntisymmetric(a[1..], b[1..]);
      assert a == [a[0]] + a[1..] && b == [b[0]] + b[1..];
    }
  }
}
