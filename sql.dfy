/** What the relational backend does with a table when it answers a query:
    `WHERE` keeps the matching rows in table order, `ORDER BY` on a text
    column sorts by code-point lexicographic order. Both storage backends
    read their tables through these. */
module Sql {

  import opened Core

  /** `WHERE keep`: the rows of the table that satisfy `keep`, in table order.
      Defined from the back, so that the last kept row is easy to reach. */
  function Where<T>(rows: seq<T>, keep: T -> bool): (r: seq<T>)
    ensures |r| <= |rows|
    ensures forall k :: 0 <= k < |r| ==> r[k] in rows && keep(r[k])
    ensures forall i :: 0 <= i < |rows| && keep(rows[i]) ==> rows[i] in r
  {
    if rows == [] then []
    else
      var last := rows[|rows| - 1];
      assert rows == rows[..|rows| - 1] + [last];
      Where(rows[..|rows| - 1], keep) + (if keep(last) then [last] else [])
  }

  /** The last element of a sequence, if any. A row loop that reassigns its
      result on every row ends with the value built from this row. */
  function LastRow<T>(rows: seq<T>): Option<T> {
    if rows == [] then None else Some(rows[|rows| - 1])
  }

  /** `i` is the index of the last row of the table that `keep` holds of. */
  ghost predicate LastKept<T>(rows: seq<T>, keep: T -> bool, i: int) {
    && 0 <= i < |rows|
    && keep(rows[i])
    && forall j :: i < j < |rows| ==> !keep(rows[j])
  }

  /** The last row of a `WHERE` result is the last matching row of the table,
      and there is none exactly when no row of the table matches. */
  lemma WhereLastRow<T>(rows: seq<T>, keep: T -> bool)
    ensures LastRow(Where(rows, keep)).None? <==> forall i :: 0 <= i < |rows| ==> !keep(rows[i])
    ensures forall i :: LastKept(rows, keep, i) ==> LastRow(Where(rows, keep)) == Some(rows[i])
    ensures LastRow(Where(rows, keep)).Some? ==> exists i :: LastKept(rows, keep, i)
  {
    WhereEmptyIffNoMatch(rows, keep);
    forall i | LastKept(rows, keep, i)
      ensures LastRow(Where(rows, keep)) == Some(rows[i])
    {
      WhereLastIsLastKept(rows, keep, i);
    }
    WhereLastExists(rows, keep);
  }

  lemma {:induction false} WhereEmptyIffNoMatch<T>(rows: seq<T>, keep: T -> bool)
    ensures LastRow(Where(rows, keep)).None? <==> forall i :: 0 <= i < |rows| ==> !keep(rows[i])
  {
    if rows != [] {
      var n := |rows|;
      var prefix := rows[..n - 1];
      var last := rows[n - 1];
      assert Where(rows, keep) == Where(prefix, keep) + (if keep(last) then [last] else []);
      WhereEmptyIffNoMatch(prefix, keep);
      if !keep(last) {
        assert (forall i :: 0 <= i < n ==> !keep(rows[i])) <==> (forall i :: 0 <= i < n - 1 ==> !keep(prefix[i]));
      }
    }
  }

  lemma {:induction false} WhereLastIsLastKept<T>(rows: seq<T>, keep: T -> bool, i: int)
    requires LastKept(rows, keep, i)
    ensures LastRow(Where(rows, keep)) == Some(rows[i])
  {
    var n := |rows|;
    var prefix := rows[..n - 1];
    var last := rows[n - 1];
    if keep(last) {
      assert Where(rows, keep) == Where(prefix, keep) + [last];
      assert i == n - 1;
    } else {
      assert Where(rows, keep) == Where(prefix, keep) + [];
      assert i < n - 1;
      assert forall j :: i < j < n - 1 ==> prefix[j] == rows[j];
      assert LastKept(prefix, keep, i);
      WhereLastIsLastKept(prefix, keep, i);
      assert prefix[i] == rows[i];
    }
  }

  lemma {:induction false} WhereLastExists<T>(rows: seq<T>, keep: T -> bool)
    ensures LastRow(Where(rows, keep)).Some? ==> exists i :: LastKept(rows, keep, i)
  {
    if rows != [] {
      var n := |rows|;
      var prefix := rows[..n - 1];
      var last := rows[n - 1];
      assert Where(rows, keep) == Where(prefix, keep) + (if keep(last) then [last] else []);
      if keep(last) {
        assert LastKept(rows, keep, n - 1);
      } else if LastRow(Where(rows, keep)).Some? {
        WhereLastExists(prefix, keep);
        var i :| LastKept(prefix, keep, i);
        assert forall j :: i < j < n - 1 ==> prefix[j] == rows[j];
        assert LastKept(rows, keep, i);
      }
    }
  }

  /** Every two rows of the table, taken in table order, are related by `ok`;
      the shape of a UNIQUE constraint. */
  ghost predicate Pairwise<T>(rows: seq<T>, ok: (T, T) -> bool) {
    forall i, j :: 0 <= i < j < |rows| ==> ok(rows[i], rows[j])
  }

  /** A `WHERE` keeps a pairwise property of the table: deleting rows never
      breaks a UNIQUE constraint. */
  lemma {:induction false} WherePairwise<T>(rows: seq<T>, keep: T -> bool, ok: (T, T) -> bool)
    requires Pairwise(rows, ok)
    ensures Pairwise(Where(rows, keep), ok)
  {
    if rows != [] {
      var n := |rows|;
      var prefix := rows[..n - 1];
      var last := rows[n - 1];
      var front := Where(prefix, keep);
      var tail := if keep(last) then [last] else [];
      assert Where(rows, keep) == front + tail;
      WherePairwise(prefix, keep, ok);
      var r := front + tail;
      forall i, j | 0 <= i < j < |r|
        ensures ok(r[i], r[j])
      {
        if j >= |front| {
          assert r[i] == front[i] && r[j] == last;
          assert front[i] in prefix;
          var k :| 0 <= k < n - 1 && prefix[k] == front[i];
          assert rows[k] == front[i];
        } else {
          assert r[i] == front[i] && r[j] == front[j];
        }
      }
    }
  }

  /** Appending a row related by `ok` to every existing row keeps the
      property: an INSERT that passes a UNIQUE check. */
  lemma AppendPairwise<T>(rows: seq<T>, x: T, ok: (T, T) -> bool)
    requires Pairwise(rows, ok)
    requires forall k :: 0 <= k < |rows| ==> ok(rows[k], x)
    ensures Pairwise(rows + [x], ok)
  {
    var r := rows + [x];
    forall i, j | 0 <= i < j < |r|
      ensures ok(r[i], r[j])
    {
      assert r[i] == rows[i];
      if j < |rows| {
        assert r[j] == rows[j];
      }
    }
  }

  /** Code-point lexicographic order on text, the order `ORDER BY` uses here. */
  predicate LexLe(a: string, b: string) {
    |a| == 0 || (|b| > 0 && (a[0] < b[0] || (a[0] == b[0] && LexLe(a[1..], b[1..]))))
  }

  lemma {:induction false} LexLeTotal(a: string, b: string)
    ensures LexLe(a, b) || LexLe(b, a)
  {
    if |a| > 0 && |b| > 0 && a[0] == b[0] {
      LexLeTotal(a[1..], b[1..]);
    }
  }

  lemma {:induction false} LexLeTransitive(a: string, b: string, c: string)
    requires LexLe(a, b) && LexLe(b, c)
    ensures LexLe(a, c)
  {
    if |a| > 0 && a[0] == b[0] && b[0] == c[0] {
      LexLeTransitive(a[1..], b[1..], c[1..]);
    }
  }

  /** Every pair of rows is in `key` order. */
  ghost predicate SortedBy<T>(s: seq<T>, key: T -> string) {
    forall i, j :: 0 <= i < j < |s| ==> LexLe(key(s[i]), key(s[j]))
  }

  /** Inserts `x` into a sorted sequence, after the rows whose key is
      strictly smaller (insertion keeps equal keys in arrival order). */
  function InsertBy<T>(x: T, s: seq<T>, key: T -> string): (r: seq<T>)
    requires SortedBy(s, key)
    ensures SortedBy(r, key)
    ensures multiset(r) == multiset(s) + multiset{x}
  {
    if s == [] then [x]
    else if LexLe(key(x), key(s[0])) then
      assert SortedBy([x] + s, key) by {
        forall j | 1 <= j < |s| {
          LexLeTransitive(key(x), key(s[0]), key(s[j]));
        }
      }
      assert s == [s[0]] + s[1..];
      [x] + s
    else
      var tail := InsertBy(x, s[1..], key);
      assert SortedBy([s[0]] + tail, key) by {
        LexLeTotal(key(x), key(s[0]));
        forall k | 0 <= k < |tail|
          ensures LexLe(key(s[0]), key(tail[k]))
        {
          assert tail[k] in multiset(tail);
          if tail[k] != x {
            assert tail[k] in multiset(s[1..]);
            var j :| 0 <= j < |s[1..]| && s[1..][j] == tail[k];
            assert s[j + 1] == tail[k];
          }
        }
      }
      assert s == [s[0]] + s[1..];
      [s[0]] + tail
  }

  /** `ORDER BY key`: the same rows, sorted by `key`. */
  function SortBy<T>(s: seq<T>, key: T -> string): (r: seq<T>)
    ensures SortedBy(r, key)
    ensures multiset(r) == multiset(s)
    ensures |r| == |s|
  {
    if s == [] then []
    else
      assert s == [s[0]] + s[1..];
      InsertBy(s[0], SortBy(s[1..], key), key)
  }
}
