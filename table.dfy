/**
 * An in-memory SQL table: a sequence of rows kept in rowid order.
 *
 * The query builder calls used by the services map onto these functions:
 *   select().from(t).where(p)            -> Where(rows, p)
 *   const [x] = await <query>            -> Head(<query>)
 *   update(t).set(f).where(p)            -> UpdateWhere(rows, p, f)
 *   update(t).set(f).where(p).returning() -> Updated(rows, p, f)
 *   delete(t).where(p)                   -> Where(rows, not p)
 *   insert(t).values(x)                  -> rows + [x]
 */
module Table {
  import opened Wrappers

  /** The first element of a query result, as `const [x] = rows` binds it. */
  function Head<T>(s: seq<T>): (r: Option<T>)
    ensures r.None? <==> s == []
    ensures r.Some? ==> r.value == s[0]
  {
    if s == [] then None else Some(s[0])
  }

  /** The rows that satisfy `keep`, in table order. */
  function Where<T(!new)>(rows: seq<T>, keep: T -> bool): (r: seq<T>)
    ensures |r| <= |rows|
    ensures forall x :: x in r <==> x in rows && keep(x)
  {
    if rows == [] then []
    else (if keep(rows[0]) then [rows[0]] else []) + Where(rows[1..], keep)
  }

  /** Every row that satisfies `cond` is rewritten; the others stay as they are. */
  function UpdateWhere<T>(rows: seq<T>, cond: T -> bool, change: T -> T): (r: seq<T>)
    ensures |r| == |rows|
    ensures forall i :: 0 <= i < |rows| ==> r[i] == (if cond(rows[i]) then change(rows[i]) else rows[i])
  {
    if rows == [] then []
    else [if cond(rows[0]) then change(rows[0]) else rows[0]] + UpdateWhere(rows[1..], cond, change)
  }

  /** The rows an `update ... returning()` hands back: each matched row after the change. */
  function Updated<T(!new)>(rows: seq<T>, cond: T -> bool, change: T -> T): (r: seq<T>)
    ensures |r| == |Where(rows, cond)|
    ensures forall i :: 0 <= i < |r| ==> r[i] == change(Where(rows, cond)[i])
  {
    var w := Where(rows, cond);
    seq(|w|, i requires 0 <= i < |w| => change(w[i]))
  }

  /**
   * What `returning()` hands back is what a query for the updated rows would
   * read from the table the update leaves behind, when the change keeps a
   * row matching.
   */
  lemma {:induction false} UpdatedIsWhereOfUpdate<T(!new)>(rows: seq<T>, cond: T -> bool, change: T -> T)
    requires forall x :: cond(x) ==> cond(change(x))
    ensures Updated(rows, cond, change) == Where(UpdateWhere(rows, cond, change), cond)
  {
    if rows != [] {
      UpdatedIsWhereOfUpdate(rows[1..], cond, change);
      assert UpdateWhere(rows, cond, change)[1..] == UpdateWhere(rows[1..], cond, change);
      assert Where(rows, cond) == (if cond(rows[0]) then [rows[0]] else []) + Where(rows[1..], cond);
    }
  }

  /** The first row `returning()` hands back is a row of the updated table that still matches. */
  lemma HeadUpdatedIsInTable<T(!new)>(rows: seq<T>, cond: T -> bool, change: T -> T)
    requires forall x :: cond(x) ==> cond(change(x))
    ensures Head(Updated(rows, cond, change)).Some? ==>
              Head(Updated(rows, cond, change)).value in UpdateWhere(rows, cond, change)
              && cond(Head(Updated(rows, cond, change)).value)
  {
    UpdatedIsWhereOfUpdate(rows, cond, change);
    var w := Where(UpdateWhere(rows, cond, change), cond);
    if w != [] {
      assert w[0] in w;
    }
  }

  /** Keys strictly increase along the table: rowid order, and no key twice. */
  ghost predicate Ascending<T>(rows: seq<T>, key: T -> int)
  {
    forall i, j :: 0 <= i < j < |rows| ==> key(rows[i]) < key(rows[j])
  }

  /** Every key is below `bound`, the next key the table will hand out. */
  ghost predicate KeysBelow<T>(rows: seq<T>, key: T -> int, bound: int)
  {
    forall i :: 0 <= i < |rows| ==> key(rows[i]) < bound
  }

  /** Appending a row adds exactly that row to every query it satisfies. */
  lemma {:induction false} WhereAppend<T(!new)>(rows: seq<T>, x: T, keep: T -> bool)
    ensures Where(rows + [x], keep) == Where(rows, keep) + (if keep(x) then [x] else [])
  {
    if rows == [] {
      assert rows + [x] == [x];
    } else {
      assert (rows + [x])[1..] == rows[1..] + [x];
      WhereAppend(rows[1..], x, keep);
    }
  }

  /** A row whose key is below every key of an ascending table can be put in front of it. */
  lemma AscendingCons<T(!new)>(x: T, rows: seq<T>, key: T -> int)
    requires Ascending(rows, key)
    requires forall y :: y in rows ==> key(x) < key(y)
    ensures Ascending([x] + rows, key)
  {
    var r := [x] + rows;
    forall i, j | 0 <= i < j < |r| ensures key(r[i]) < key(r[j]) {
      assert r[j] == rows[j - 1] && rows[j - 1] in rows;
      if 0 < i {
        assert r[i] == rows[i - 1];
      }
    }
  }

  /** A query never changes the relative order of rows, so ascending keys stay ascending. */
  lemma {:induction false} AscendingWhere<T(!new)>(rows: seq<T>, key: T -> int, keep: T -> bool)
    requires Ascending(rows, key)
    ensures Ascending(Where(rows, keep), key)
  {
    if rows != [] {
      var rest := rows[1..];
      assert Ascending(rest, key) by {
        forall i, j | 0 <= i < j < |rest| ensures key(rest[i]) < key(rest[j]) {
          assert rest[i] == rows[i + 1] && rest[j] == rows[j + 1];
        }
      }
      AscendingWhere(rest, key, keep);
      var w := Where(rest, keep);
      if keep(rows[0]) {
        forall y | y in w ensures key(rows[0]) < key(y) {
          var j :| 0 <= j < |rest| && rest[j] == y;
          assert rows[j + 1] == y;
        }
        AscendingCons(rows[0], w, key);
      }
    }
  }

  /** A rewrite that keeps every row's key keeps the table's key order. */
  lemma AscendingUpdateWhere<T>(rows: seq<T>, key: T -> int, cond: T -> bool, change: T -> T)
    requires Ascending(rows, key)
    requires forall x :: cond(x) ==> key(change(x)) == key(x)
    ensures Ascending(UpdateWhere(rows, cond, change), key)
    ensures forall b :: KeysBelow(rows, key, b) ==> KeysBelow(UpdateWhere(rows, cond, change), key, b)
  {
  }

  /** When keys are unique, a lookup by key finds the row with that key at any position. */
  lemma HeadWhereUnique<T(!new)>(rows: seq<T>, key: T -> int, p: T -> bool, i: int)
    requires Ascending(rows, key)
    requires 0 <= i < |rows| && p(rows[i])
    requires forall x :: p(x) ==> key(x) == key(rows[i])
    ensures Head(Where(rows, p)) == Some(rows[i])
  {
    var w := Where(rows, p);
    assert rows[i] in w;
    forall y | y in w ensures y == rows[i] {
      var j :| 0 <= j < |rows| && rows[j] == y;
      assert !(j < i) && !(i < j);
    }
    assert w[0] in w;
  }

  /** Rewriting rows in a way a query cannot see commutes with the query. */
  lemma {:induction false} WhereUpdateWhere<T(!new)>(rows: seq<T>, p: T -> bool, cond: T -> bool, change: T -> T)
    requires forall x :: p(change(x)) == p(x)
    ensures Where(UpdateWhere(rows, cond, change), p) == UpdateWhere(Where(rows, p), cond, change)
  {
    if rows != [] {
      WhereUpdateWhere(rows[1..], p, cond, change);
      assert UpdateWhere(rows, cond, change)[1..] == UpdateWhere(rows[1..], cond, change);
    }
  }

  /** A query no row satisfies returns nothing. */
  lemma {:induction false} WhereNone<T(!new)>(rows: seq<T>, keep: T -> bool)
    requires forall i :: 0 <= i < |rows| ==> !keep(rows[i])
    ensures Where(rows, keep) == []
  {
    if rows != [] {
      WhereNone(rows[1..], keep);
    }
  }

  /** A query every row satisfies returns the whole table. */
  lemma {:induction false} WhereAll<T(!new)>(rows: seq<T>, keep: T -> bool)
    requires forall i :: 0 <= i < |rows| ==> keep(rows[i])
    ensures Where(rows, keep) == rows
  {
    if rows != [] {
      WhereAll(rows[1..], keep);
      assert rows == [rows[0]] + rows[1..];
    }
  }

  /** The rest of an ascending table is ascending. */
  lemma AscendingTail<T>(rows: seq<T>, key: T -> int)
    requires Ascending(rows, key) && rows != []
    ensures Ascending(rows[1..], key)
    ensures forall i :: 1 <= i < |rows| ==> key(rows[0]) < key(rows[i])
  {
    var rest := rows[1..];
    forall i, j | 0 <= i < j < |rest| ensures key(rest[i]) < key(rest[j]) {
      assert rest[i] == rows[i + 1] && rest[j] == rows[j + 1];
    }
  }

  /** A query keeps every key below a bound the table's keys were below. */
  lemma KeysBelowWhere<T(!new)>(rows: seq<T>, key: T -> int, keep: T -> bool, bound: int)
    requires KeysBelow(rows, key, bound)
    ensures KeysBelow(Where(rows, keep), key, bound)
  {
    var w := Where(rows, keep);
    forall i | 0 <= i < |w| ensures key(w[i]) < bound {
      assert w[i] in w;
      var j :| 0 <= j < |rows| && rows[j] == w[i];
    }
  }
}
