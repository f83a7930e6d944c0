/** The LINQ operators the application's queries use, over a table held as a
    sequence of rows in table order: `FirstOrDefault`, `Where`, `Any`,
    `Select`, `Count` and `Except`. */
module Query {
  import opened Base

  /** `FirstOrDefault(p)`: the first row satisfying `p`, if any. */
  function FirstWhere<T>(rows: seq<T>, p: T -> bool): (r: Option<T>)
    ensures r.None? <==> forall i :: 0 <= i < |rows| ==> !p(rows[i])
    ensures r.Some? ==> exists k :: 0 <= k < |rows| && rows[k] == r.value && p(r.value)
                                    && forall i :: 0 <= i < k ==> !p(rows[i])
  {
    if |rows| == 0 then None
    else if p(rows[0]) then Some(rows[0])
    else
      var r := FirstWhere(rows[1..], p);
      assert forall i :: 1 <= i < |rows| ==> rows[i] == rows[1..][i - 1];
      r
  }

  /** `Any(p)`. */
  predicate AnyWhere<T>(rows: seq<T>, p: T -> bool)
  {
    exists i :: 0 <= i < |rows| && p(rows[i])
  }

  /** `Where(p)`: the rows satisfying `p`, in table order. */
  function Where<T(!new)>(rows: seq<T>, p: T -> bool): (r: seq<T>)
    ensures |r| <= |rows|
    ensures forall x :: x in r <==> x in rows && p(x)
  {
    if |rows| == 0 then []
    else
      var rest := Where(rows[1..], p);
      assert forall x :: x in rows <==> x == rows[0] || x in rows[1..];
      if p(rows[0]) then [rows[0]] + rest else rest
  }

  /** `Where(p)` keeps every row when every row satisfies `p`. */
  lemma {:induction false} WhereAll<T(!new)>(rows: seq<T>, p: T -> bool)
    requires forall i :: 0 <= i < |rows| ==> p(rows[i])
    ensures Where(rows, p) == rows
  {
    if |rows| > 0 {
      WhereAll(rows[1..], p);
      assert [rows[0]] + rows[1..] == rows;
    }
  }

  /** `Select(f)`. */
  function Select<T, U>(rows: seq<T>, f: T -> U): (r: seq<U>)
    ensures |r| == |rows|
    ensures forall i :: 0 <= i < |rows| ==> r[i] == f(rows[i])
  {
    seq(|rows|, i requires 0 <= i < |rows| => f(rows[i]))
  }

  /** `Count(p)`. */
  function CountWhere<T>(rows: seq<T>, p: T -> bool): (n: nat)
    ensures n <= |rows|
  {
    if |rows| == 0 then 0
    else (if p(rows[0]) then 1 else 0) + CountWhere(rows[1..], p)
  }

  /** No value occurs twice. */
  predicate Distinct<T(==)>(xs: seq<T>)
  {
    forall i, j :: 0 <= i < j < |xs| ==> xs[i] != xs[j]
  }

  /** No two rows share a key: what a primary key or unique index enforces. */
  predicate DistinctBy<T, K(==)>(rows: seq<T>, key: T -> K)
  {
    forall i, j :: 0 <= i < j < |rows| ==> key(rows[i]) != key(rows[j])
  }

  /** Under a unique key, two rows with the same key are the same row. */
  lemma DistinctBySameKey<T, K>(rows: seq<T>, key: T -> K, x: T, y: T)
    requires DistinctBy(rows, key)
    requires x in rows && y in rows && key(x) == key(y)
    ensures x == y
  {
    var i :| 0 <= i < |rows| && rows[i] == x;
    var j :| 0 <= j < |rows| && rows[j] == y;
    assert !(i < j) && !(j < i);
  }

  /** Dropping rows never creates a duplicate key. */
  lemma WhereKeepsDistinctBy<T(!new), K>(rows: seq<T>, p: T -> bool, key: T -> K)
    ensures DistinctBy(rows, key) ==> DistinctBy(Where(rows, p), key)
  {
    if DistinctBy(rows, key) {
      DistinctWhere(rows, p, key);
    }
  }

  lemma {:induction false} DistinctWhere<T(!new), K>(rows: seq<T>, p: T -> bool, key: T -> K)
    requires DistinctBy(rows, key)
    ensures DistinctBy(Where(rows, p), key)
  {
    if |rows| > 0 {
      var tail := rows[1..];
      assert DistinctBy(tail, key) by {
        forall i, j | 0 <= i < j < |tail| ensures key(tail[i]) != key(tail[j]) {
          assert tail[i] == rows[i + 1] && tail[j] == rows[j + 1];
        }
      }
      DistinctWhere(tail, p, key);
      var w := Where(tail, p);
      if p(rows[0]) {
        forall j | 0 <= j < |w| ensures key(rows[0]) != key(w[j]) {
          assert w[j] in tail;
          var k :| 0 <= k < |tail| && tail[k] == w[j];
          assert rows[k + 1] == w[j];
        }
        var r := [rows[0]] + w;
        forall i, j | 0 <= i < j < |r| ensures key(r[i]) != key(r[j]) {
          assert r[j] == w[j - 1];
          if i > 0 {
            assert r[i] == w[i - 1];
          }
        }
      }
    }
  }

  /** Appending a row whose key is new keeps keys unique. */
  lemma AppendKeepsDistinctBy<T, K>(rows: seq<T>, x: T, key: T -> K)
    requires DistinctBy(rows, key)
    requires forall i :: 0 <= i < |rows| ==> key(rows[i]) != key(x)
    ensures DistinctBy(rows + [x], key)
  {
    var r := rows + [x];
    forall i, j | 0 <= i < j < |r| ensures key(r[i]) != key(r[j]) {
      assert r[i] == rows[i];
      if j < |rows| {
        assert r[j] == rows[j];
      }
    }
  }

  /** Two key-unique sequences whose keys do not overlap concatenate to a key-unique sequence. */
  lemma ConcatKeepsDistinctBy<T, K>(xs: seq<T>, ys: seq<T>, key: T -> K)
    requires DistinctBy(xs, key) && DistinctBy(ys, key)
    requires forall i, j :: 0 <= i < |xs| && 0 <= j < |ys| ==> key(xs[i]) != key(ys[j])
    ensures DistinctBy(xs + ys, key)
  {
    var r := xs + ys;
    forall i, j | 0 <= i < j < |r| ensures key(r[i]) != key(r[j]) {
      if j < |xs| {
        assert r[i] == xs[i] && r[j] == xs[j];
      } else if i < |xs| {
        assert r[i] == xs[i] && r[j] == ys[j - |xs|];
      } else {
        assert r[i] == ys[i - |xs|] && r[j] == ys[j - |xs|];
      }
    }
  }

  /** A unique index on a nullable column: no two rows share a key that is
      present, while rows whose key is null never collide (SQL Server filters
      such an index on `IS NOT NULL`). */
  predicate DistinctByNonNull<T, K(==)>(rows: seq<T>, key: T -> Option<K>)
  {
    forall i, j :: 0 <= i < j < |rows| && key(rows[i]).Some? ==> key(rows[i]) != key(rows[j])
  }

  /** Dropping rows never creates a duplicate present key. */
  lemma {:induction false} WhereKeepsDistinctByNonNull<T(!new), K>(rows: seq<T>, p: T -> bool, key: T -> Option<K>)
    requires DistinctByNonNull(rows, key)
    ensures DistinctByNonNull(Where(rows, p), key)
  {
    if |rows| > 0 {
      var tail := rows[1..];
      assert DistinctByNonNull(tail, key) by {
        forall i, j | 0 <= i < j < |tail| && key(tail[i]).Some? ensures key(tail[i]) != key(tail[j]) {
          assert tail[i] == rows[i + 1] && tail[j] == rows[j + 1];
        }
      }
      WhereKeepsDistinctByNonNull(tail, p, key);
      var w := Where(tail, p);
      if p(rows[0]) {
        forall j | 0 <= j < |w| && key(rows[0]).Some? ensures key(rows[0]) != key(w[j]) {
          assert w[j] in tail;
          var k :| 0 <= k < |tail| && tail[k] == w[j];
          assert rows[k + 1] == w[j];
        }
        var r := [rows[0]] + w;
        forall i, j | 0 <= i < j < |r| && key(r[i]).Some? ensures key(r[i]) != key(r[j]) {
          assert r[j] == w[j - 1];
          if i > 0 {
            assert r[i] == w[i - 1];
          }
        }
      }
    }
  }

  /** Appending a row whose key no earlier present key equals keeps the index. */
  lemma AppendKeepsDistinctByNonNull<T, K>(rows: seq<T>, x: T, key: T -> Option<K>)
    requires DistinctByNonNull(rows, key)
    requires forall i :: 0 <= i < |rows| && key(rows[i]).Some? ==> key(rows[i]) != key(x)
    ensures DistinctByNonNull(rows + [x], key)
  {
    var r := rows + [x];
    forall i, j | 0 <= i < j < |r| && key(r[i]).Some? ensures key(r[i]) != key(r[j]) {
      assert r[i] == rows[i];
      if j < |rows| {
        assert r[j] == rows[j];
      }
    }
  }

  /** Appending rows whose keys are all null keeps the index. */
  lemma AppendNullKeysKeepsDistinctByNonNull<T, K>(xs: seq<T>, ys: seq<T>, key: T -> Option<K>)
    requires DistinctByNonNull(xs, key)
    requires forall j :: 0 <= j < |ys| ==> key(ys[j]).None?
    ensures DistinctByNonNull(xs + ys, key)
  {
    var r := xs + ys;
    forall i, j | 0 <= i < j < |r| && key(r[i]).Some? ensures key(r[i]) != key(r[j]) {
      if j < |xs| {
        assert r[i] == xs[i] && r[j] == xs[j];
      } else {
        assert r[j] == ys[j - |xs|];
      }
    }
  }

  /** Rewriting rows without changing their keys keeps keys unique. */
  lemma SameKeysKeepDistinctBy<T, K>(xs: seq<T>, ys: seq<T>, key: T -> K)
    requires |xs| == |ys| && DistinctBy(xs, key)
    requires forall i :: 0 <= i < |xs| ==> key(xs[i]) == key(ys[i])
    ensures DistinctBy(ys, key)
  {
  }

  /** LINQ `Except`, scanning `xs` with the values already excluded in `seen`:
      the distinct values of `xs` that are not in `seen`, in order of first occurrence. */
  function ExceptFrom<T(==,!new)>(xs: seq<T>, seen: set<T>): (r: seq<T>)
    ensures forall x :: x in r <==> x in xs && x !in seen
    ensures Distinct(r)
  {
    if |xs| == 0 then []
    else if xs[0] in seen then ExceptFrom(xs[1..], seen)
    else
      var rest := ExceptFrom(xs[1..], seen + {xs[0]});
      assert forall x :: x in xs <==> x == xs[0] || x in xs[1..];
      var r := [xs[0]] + rest;
      assert forall j :: 0 < j < |r| ==> r[j] == rest[j - 1];
      r
  }

  /** `xs.Except(ys)`. */
  function Except<T(==,!new)>(xs: seq<T>, ys: seq<T>): (r: seq<T>)
    ensures forall x :: x in r <==> x in xs && x !in ys
    ensures Distinct(r)
  {
    ExceptFrom(xs, set y | y in ys)
  }
}
