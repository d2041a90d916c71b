/**
 * Tables whose rows carry an integer rowid. A row inserted without an explicit id gets
 * one more than the largest id in the table (1 in an empty table), so ids are at least 1
 * and ascend in table order. Lookup by id, `DELETE ... WHERE id = ?` and
 * `UPDATE ... WHERE id = ?` are generic over the row type.
 */
module Keyed {
  import opened Outcomes
  import opened Sql

  /** Ids are at least 1 and strictly ascending in table order. */
  predicate Ascending<T>(rows: seq<T>, key: T -> int) {
    (forall i :: 0 <= i < |rows| ==> key(rows[i]) >= 1)
    && forall i, j :: 0 <= i < j < |rows| ==> key(rows[i]) < key(rows[j])
  }

  /** The rowid SQLite assigns to the next inserted row. */
  function NextKey<T>(rows: seq<T>, key: T -> int): (k: int)
    requires Ascending(rows, key)
    ensures k >= 1
    ensures forall i :: 0 <= i < |rows| ==> key(rows[i]) < k
    ensures rows != [] ==> k == key(rows[|rows| - 1]) + 1
  {
    if rows == [] then 1 else key(rows[|rows| - 1]) + 1
  }

  /** Appending a row with the next rowid keeps the ids ascending. */
  lemma AppendAscending<T>(rows: seq<T>, x: T, key: T -> int)
    requires Ascending(rows, key) && key(x) == NextKey(rows, key)
    ensures Ascending(rows + [x], key)
  {
    var r := rows + [x];
    forall i, j | 0 <= i < j < |r| ensures key(r[i]) < key(r[j]) {
      if j < |rows| {
        assert r[i] == rows[i] && r[j] == rows[j];
      } else {
        assert r[i] == rows[i];
      }
    }
  }

  /** `SELECT * ... WHERE id = ?` taking the first row: the row with that id, if any. */
  function Find<T>(rows: seq<T>, key: T -> int, id: int): (r: Option<T>)
    ensures r.Some? <==> exists i :: 0 <= i < |rows| && key(rows[i]) == id
    ensures r.Some? ==> r.value in rows && key(r.value) == id
    ensures Ascending(rows, key) ==> forall i :: 0 <= i < |rows| && key(rows[i]) == id ==> r == Some(rows[i])
  {
    if rows == [] then None
    else if key(rows[0]) == id then Some(rows[0])
    else
      var r := Find(rows[1..], key, id);
      assert forall i :: 1 <= i < |rows| ==> rows[i] == rows[1..][i - 1];
      assert Ascending(rows, key) ==> Ascending(rows[1..], key);
      r
  }

  /** `DELETE ... WHERE id = ?`: every row with another id stays, in order. */
  function Remove<T(!new)>(rows: seq<T>, key: T -> int, id: int): (r: seq<T>)
    ensures forall x :: x in r <==> x in rows && key(x) != id
    ensures forall i :: 0 <= i < |r| ==> key(r[i]) != id
    ensures Ascending(rows, key) ==> Ascending(r, key)
    ensures DistinctKeys(rows, key) ==> DistinctKeys(r, key)
    ensures forall k :: Find(r, key, k) == if k == id then None else Find(rows, key, k)
  {
    var r := Filter(rows, (x: T) => key(x) != id);
    FilterFind(rows, (x: T) => key(x) != id, key, id);
    if Ascending(rows, key) then
      FilterAscending(rows, (x: T) => key(x) != id, key);
      r
    else r
  }

  /** Dropping the rows with one id changes no lookup of another id and leaves keys distinct. */
  lemma FilterFind<T(!new)>(rows: seq<T>, p: T -> bool, key: T -> int, id: int)
    requires forall x :: p(x) <==> key(x) != id
    ensures forall k :: Find(Filter(rows, p), key, k) == if k == id then None else Find(rows, key, k)
    ensures DistinctKeys(rows, key) ==> DistinctKeys(Filter(rows, p), key)
  {
    forall k ensures Find(Filter(rows, p), key, k) == if k == id then None else Find(rows, key, k) {
      FilterFindAt(rows, p, key, id, k);
    }
    if DistinctKeys(rows, key) {
      FilterDistinct(rows, p, key);
    }
  }

  lemma {:induction false} FilterFindAt<T(!new)>(rows: seq<T>, p: T -> bool, key: T -> int, id: int, k: int)
    requires forall x :: p(x) <==> key(x) != id
    ensures Find(Filter(rows, p), key, k) == if k == id then None else Find(rows, key, k)
    decreases |rows|
  {
    if rows != [] {
      FilterFindAt(rows[1..], p, key, id, k);
      var rest := Filter(rows[1..], p);
      assert p(rows[0]) <==> key(rows[0]) != id;
      if p(rows[0]) {
        var r := [rows[0]] + rest;
        assert Filter(rows, p) == r;
        assert r[1..] == rest;
        assert Find(r, key, k) == if key(rows[0]) == k then Some(rows[0]) else Find(rest, key, k);
      } else {
        assert Filter(rows, p) == rest;
      }
    }
  }

  lemma {:induction false} FilterDistinct<T(!new)>(rows: seq<T>, p: T -> bool, key: T -> int)
    requires DistinctKeys(rows, key)
    ensures DistinctKeys(Filter(rows, p), key)
    decreases |rows|
  {
    if rows != [] {
      assert DistinctKeys(rows[1..], key) by {
        assert forall i :: 1 <= i < |rows| ==> rows[i] == rows[1..][i - 1];
      }
      FilterDistinct(rows[1..], p, key);
      if p(rows[0]) {
        var rest := Filter(rows[1..], p);
        forall y | y in rest ensures key(y) != key(rows[0]) {
          var k :| 0 <= k < |rows[1..]| && rows[1..][k] == y;
          assert rows[k + 1] == y;
        }
        ConsDistinct(rows[0], rest, key);
      }
    }
  }

  /** No two rows share a key: the stock table keyed by variant. */
  predicate DistinctKeys<T>(rows: seq<T>, key: T -> int) {
    forall i, j :: 0 <= i < j < |rows| ==> key(rows[i]) != key(rows[j])
  }

  lemma ConsDistinct<T>(x: T, rest: seq<T>, key: T -> int)
    requires DistinctKeys(rest, key)
    requires forall y :: y in rest ==> key(y) != key(x)
    ensures DistinctKeys([x] + rest, key)
  {
    var r := [x] + rest;
    forall i, j | 0 <= i < j < |r| ensures key(r[i]) != key(r[j]) {
      assert r[j] == rest[j - 1];
      if i > 0 {
        assert r[i] == rest[i - 1];
      }
    }
  }

  /** A join that carries the driving row's key into the joined row keeps keys distinct. */
  lemma {:induction false} FilterMapDistinct<T(!new), U(!new)>(rows: seq<T>, f: T -> Option<U>,
                                                               key: T -> int, joinedKey: U -> int)
    requires DistinctKeys(rows, key)
    requires forall x :: f(x).Some? ==> joinedKey(f(x).value) == key(x)
    ensures DistinctKeys(FilterMap(rows, f), joinedKey)
    decreases |rows|
  {
    if rows != [] {
      assert DistinctKeys(rows[1..], key) by {
        assert forall i :: 1 <= i < |rows| ==> rows[i] == rows[1..][i - 1];
      }
      FilterMapDistinct(rows[1..], f, key, joinedKey);
      if f(rows[0]).Some? {
        var rest := FilterMap(rows[1..], f);
        forall y | y in rest ensures joinedKey(y) != joinedKey(f(rows[0]).value) {
          var x :| x in rows[1..] && f(x) == Some(y);
          var k :| 0 <= k < |rows[1..]| && rows[1..][k] == x;
          assert rows[k + 1] == x;
        }
        ConsDistinct(f(rows[0]).value, rest, joinedKey);
      }
    }
  }

  /** A projection that keeps the key keeps keys distinct. */
  lemma MapDistinct<T(!new), U(!new)>(rows: seq<T>, f: T -> U, key: T -> int, projectedKey: U -> int)
    requires DistinctKeys(rows, key)
    requires forall x :: x in rows ==> projectedKey(f(x)) == key(x)
    ensures DistinctKeys(Map(rows, f), projectedKey)
  {
    var r := Map(rows, f);
    forall i, j | 0 <= i < j < |r| ensures projectedKey(r[i]) != projectedKey(r[j]) {
      assert rows[i] in rows && rows[j] in rows;
      assert projectedKey(r[i]) == key(rows[i]) && projectedKey(r[j]) == key(rows[j]);
    }
  }

  lemma {:induction false} InsertDistinct<T(!new)>(x: T, rows: seq<T>, le: (T, T) -> bool, key: T -> int)
    requires DistinctKeys(rows, key)
    requires forall y :: y in rows ==> key(y) != key(x)
    ensures DistinctKeys(Insert(x, rows, le), key)
    decreases |rows|
  {
    if rows == [] {
    } else if le(x, rows[0]) {
      ConsDistinct(x, rows, key);
    } else {
      assert DistinctKeys(rows[1..], key) by {
        assert forall i :: 1 <= i < |rows| ==> rows[i] == rows[1..][i - 1];
      }
      InsertDistinct(x, rows[1..], le, key);
      var rest := Insert(x, rows[1..], le);
      forall y | y in rest ensures key(y) != key(rows[0]) {
        assert y in multiset(rest);
        if y != x {
          assert y in multiset(rows[1..]);
          var k :| 0 <= k < |rows[1..]| && rows[1..][k] == y;
          assert rows[k + 1] == y;
        }
      }
      ConsDistinct(rows[0], rest, key);
    }
  }

  /** `ORDER BY` rearranges rows, so keys that were distinct stay distinct. */
  lemma {:induction false} SortByDistinct<T(!new)>(rows: seq<T>, le: (T, T) -> bool, key: T -> int)
    requires DistinctKeys(rows, key)
    ensures DistinctKeys(SortBy(rows, le), key)
    decreases |rows|
  {
    if rows != [] {
      assert DistinctKeys(rows[1..], key) by {
        assert forall i :: 1 <= i < |rows| ==> rows[i] == rows[1..][i - 1];
      }
      SortByDistinct(rows[1..], le, key);
      forall y | y in SortBy(rows[1..], le) ensures key(y) != key(rows[0]) {
        var k :| 0 <= k < |rows[1..]| && rows[1..][k] == y;
        assert rows[k + 1] == y;
      }
      InsertDistinct(rows[0], SortBy(rows[1..], le), le, key);
    }
  }

  /** Appending a row whose key is new keeps keys distinct and makes the row findable. */
  lemma AppendDistinct<T>(rows: seq<T>, x: T, key: T -> int)
    requires DistinctKeys(rows, key) && Find(rows, key, key(x)).None?
    ensures DistinctKeys(rows + [x], key)
  {
    var r := rows + [x];
    forall i, j | 0 <= i < j < |r| ensures key(r[i]) != key(r[j]) {
      assert r[i] == rows[i];
      if j < |rows| {
        assert r[j] == rows[j];
      }
    }
  }

  /** Looking up after an append: earlier rows win, and the new row is found by its own key. */
  lemma {:induction false} FindAppend<T>(rows: seq<T>, x: T, key: T -> int, k: int)
    ensures Find(rows + [x], key, k) == if Find(rows, key, k).Some? then Find(rows, key, k)
                                         else if key(x) == k then Some(x) else None
    decreases |rows|
  {
    if rows != [] {
      assert (rows + [x])[1..] == rows[1..] + [x];
      FindAppend(rows[1..], x, key, k);
    }
  }

  lemma {:induction false} FilterAscending<T(!new)>(rows: seq<T>, p: T -> bool, key: T -> int)
    requires Ascending(rows, key)
    ensures Ascending(Filter(rows, p), key)
    decreases |rows|
  {
    if rows != [] {
      var rest := Filter(rows[1..], p);
      assert Ascending(rows[1..], key) by {
        assert forall i :: 1 <= i < |rows| ==> rows[i] == rows[1..][i - 1];
      }
      FilterAscending(rows[1..], p, key);
      if p(rows[0]) {
        forall y | y in rows[1..] ensures key(rows[0]) < key(y) {
          var k :| 0 <= k < |rows[1..]| && rows[1..][k] == y;
          assert rows[k + 1] == y;
        }
        ConsAscending(rows[0], rest, key);
      }
    }
  }

  lemma ConsAscending<T>(x: T, rest: seq<T>, key: T -> int)
    requires Ascending(rest, key) && key(x) >= 1
    requires forall y :: y in rest ==> key(x) < key(y)
    ensures Ascending([x] + rest, key)
  {
    var r := [x] + rest;
    forall i, j | 0 <= i < j < |r| ensures key(r[i]) < key(r[j]) {
      assert r[j] == rest[j - 1];
      if i > 0 {
        assert r[i] == rest[i - 1];
      }
    }
  }

  /**
   * `UPDATE ... WHERE id = ?`: the rows with that id rewritten by `f`, every other row
   * unchanged and in place.
   */
  function Replace<T(!new)>(rows: seq<T>, key: T -> int, id: int, f: T -> T): (r: seq<T>)
    requires forall x :: key(f(x)) == key(x)
    ensures |r| == |rows|
    ensures forall i :: 0 <= i < |rows| ==> r[i] == (if key(rows[i]) == id then f(rows[i]) else rows[i])
    ensures Ascending(rows, key) ==> Ascending(r, key)
    ensures DistinctKeys(rows, key) ==> DistinctKeys(r, key)
    ensures forall k :: k != id ==> Find(r, key, k) == Find(rows, key, k)
    ensures Find(r, key, id) == if Find(rows, key, id).Some? then Some(f(Find(rows, key, id).value)) else None
  {
    var r := Map(rows, (x: T) => if key(x) == id then f(x) else x);
    ReplaceFind(rows, r, key, id, f);
    r
  }

  lemma {:induction false} ReplaceFind<T(!new)>(rows: seq<T>, r: seq<T>, key: T -> int, id: int, f: T -> T)
    requires forall x :: key(f(x)) == key(x)
    requires |r| == |rows|
    requires forall i :: 0 <= i < |rows| ==> r[i] == (if key(rows[i]) == id then f(rows[i]) else rows[i])
    ensures forall k :: k != id ==> Find(r, key, k) == Find(rows, key, k)
    ensures Find(r, key, id) == if Find(rows, key, id).Some? then Some(f(Find(rows, key, id).value)) else None
    decreases |rows|
  {
    if rows != [] {
      ReplaceFind(rows[1..], r[1..], key, id, f);
    }
  }
}
