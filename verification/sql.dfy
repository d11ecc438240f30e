/**
 * The standard semantics of the SQL statements the dialogs run, on a table
 * held as a sequence of rows. Every table of the application has an
 * `id INTEGER PRIMARY KEY` column; `Row` pairs that id with the other columns.
 */
module Sql {

  datatype Row<T> = Row(id: int, cols: T)

  /** The primary-key constraint: no two rows share an id. */
  ghost predicate UniqueIds<T>(rows: seq<Row<T>>) {
    forall i, j :: 0 <= i < j < |rows| ==> rows[i].id != rows[j].id
  }

  predicate HasId<T>(rows: seq<Row<T>>, id: int) {
    exists i :: 0 <= i < |rows| && rows[i].id == id
  }

  /** The largest id of a non-empty table. */
  function MaxId<T>(rows: seq<Row<T>>): (m: int)
    requires rows != []
    ensures forall i :: 0 <= i < |rows| ==> rows[i].id <= m
    ensures HasId(rows, m)
  {
    if |rows| == 1 then rows[0].id
    else
      var rest := MaxId(rows[1..]);
      assert forall i :: 1 <= i < |rows| ==> rows[i] == rows[1..][i - 1];
      if rows[0].id >= rest then rows[0].id else rest
  }

  /** The id SQLite gives a row inserted without one: one more than the
      largest id in the table, or 1 when the table is empty. */
  function NextRowId<T>(rows: seq<Row<T>>): (r: int)
    ensures forall i :: 0 <= i < |rows| ==> rows[i].id < r
    ensures !HasId(rows, r)
  {
    if rows == [] then 1 else MaxId(rows) + 1
  }

  /** `INSERT INTO t (...) VALUES (...)`. */
  function Insert<T>(rows: seq<Row<T>>, cols: T): seq<Row<T>> {
    rows + [Row(NextRowId(rows), cols)]
  }

  /** An insert adds exactly one row, at the end, with a fresh id, and keeps
      the primary-key constraint. */
  lemma InsertFacts<T>(rows: seq<Row<T>>, cols: T)
    ensures |Insert(rows, cols)| == |rows| + 1
    ensures Insert(rows, cols)[..|rows|] == rows
    ensures Insert(rows, cols)[|rows|].cols == cols
    ensures !HasId(rows, Insert(rows, cols)[|rows|].id)
    ensures UniqueIds(rows) ==> UniqueIds(Insert(rows, cols))
  {
  }

  /** The rows `SELECT ... FROM t WHERE p` yields, in table order. */
  function Where<T(!new)>(rows: seq<Row<T>>, p: T -> bool): (r: seq<Row<T>>)
    ensures |r| <= |rows|
    ensures forall x :: x in r <==> x in rows && p(x.cols)
  {
    if rows == [] then []
    else
      var init := rows[..|rows| - 1];
      var last := rows[|rows| - 1];
      assert rows == init + [last];
      if p(last.cols) then Where(init, p) + [last] else Where(init, p)
  }

  /** A `SELECT ... WHERE p` returns a row exactly when some row satisfies `p`. */
  lemma WhereNonEmpty<T(!new)>(rows: seq<Row<T>>, p: T -> bool)
    ensures |Where(rows, p)| > 0 <==> exists i :: 0 <= i < |rows| && p(rows[i].cols)
  {
    if |Where(rows, p)| > 0 {
      assert Where(rows, p)[0] in Where(rows, p);
    }
    if i :| 0 <= i < |rows| && p(rows[i].cols) {
      assert rows[i] in Where(rows, p);
    }
  }

  /** Runs `SELECT ... WHERE p` and collects the rows the cursor yields. */
  method Select<T(!new)>(rows: seq<Row<T>>, p: T -> bool) returns (result: seq<Row<T>>)
    ensures result == Where(rows, p)
  {
    result := [];
    for i := 0 to |rows|
      invariant result == Where(rows[..i], p)
    {
      assert rows[..i + 1][..i] == rows[..i];
      if p(rows[i].cols) {
        result := result + [rows[i]];
      }
    }
    assert rows[..|rows|] == rows;
  }

  /** Runs `SELECT ... FROM t` and appends every row the cursor yields to a
      list, as the dialogs' `get_clients` and `get_food` do. */
  method SelectAll<T>(rows: seq<Row<T>>) returns (result: seq<Row<T>>)
    ensures result == rows
  {
    result := [];
    for i := 0 to |rows|
      invariant result == rows[..i]
    {
      assert rows[..i + 1] == rows[..i] + [rows[i]];
      result := result + [rows[i]];
    }
  }

  /** `DELETE FROM t WHERE id = ?`: the table without the rows that carry `id`. */
  function DeleteWhereId<T(!new)>(rows: seq<Row<T>>, id: int): (r: seq<Row<T>>)
    ensures |r| <= |rows|
    ensures forall x :: x in r <==> x in rows && x.id != id
    ensures forall i :: 0 <= i < |r| ==> r[i].id != id
  {
    if rows == [] then []
    else
      var init := rows[..|rows| - 1];
      var last := rows[|rows| - 1];
      assert rows == init + [last];
      if last.id == id then DeleteWhereId(init, id) else DeleteWhereId(init, id) + [last]
  }

  /** Deleting an id that no row carries leaves the table as it was. */
  lemma {:induction false} DeleteAbsentId<T(!new)>(rows: seq<Row<T>>, id: int)
    requires !HasId(rows, id)
    ensures DeleteWhereId(rows, id) == rows
  {
    if rows != [] {
      var init := rows[..|rows| - 1];
      assert !HasId(init, id) by {
        forall i | 0 <= i < |init| ensures init[i].id != id {
          assert init[i] == rows[i];
        }
      }
      DeleteAbsentId(init, id);
      assert rows == init + [rows[|rows| - 1]];
    }
  }

  /** Removing one row keeps the primary-key constraint. */
  lemma RemoveKeepsUniqueIds<T>(rows: seq<Row<T>>, i: nat)
    requires UniqueIds(rows) && i < |rows|
    ensures UniqueIds(rows[..i] + rows[i + 1..])
  {
    var r := rows[..i] + rows[i + 1..];
    forall a, b | 0 <= a < b < |r| ensures r[a].id != r[b].id {
      var a' := if a < i then a else a + 1;
      var b' := if b < i then b else b + 1;
      assert r[a] == rows[a'] && r[b] == rows[b'];
    }
  }

  /** A prefix of a table keeps the primary-key constraint. */
  lemma PrefixKeepsUniqueIds<T>(rows: seq<Row<T>>, n: nat)
    requires UniqueIds(rows) && n <= |rows|
    ensures UniqueIds(rows[..n])
  {
    var init := rows[..n];
    forall a, b | 0 <= a < b < |init| ensures init[a].id != init[b].id {
      assert init[a] == rows[a] && init[b] == rows[b];
    }
  }

  /** The last row stays when it carries another id. */
  lemma DeleteKeepsLast<T(!new)>(rows: seq<Row<T>>, id: int)
    requires rows != [] && rows[|rows| - 1].id != id
    ensures DeleteWhereId(rows, id) == DeleteWhereId(rows[..|rows| - 1], id) + [rows[|rows| - 1]]
  {
  }

  /** Under the primary-key constraint, deleting the id of the row at `i`
      removes that row and keeps every other row, in order. */
  lemma {:induction false} DeleteRowAt<T(!new)>(rows: seq<Row<T>>, i: nat)
    requires UniqueIds(rows) && i < |rows|
    ensures DeleteWhereId(rows, rows[i].id) == rows[..i] + rows[i + 1..]
  {
    var id := rows[i].id;
    var init := rows[..|rows| - 1];
    if i == |rows| - 1 {
      assert !HasId(init, id) by {
        forall k | 0 <= k < |init| ensures init[k].id != id {
          assert init[k] == rows[k];
        }
      }
      DeleteAbsentId(init, id);
      assert rows[..i] + rows[i + 1..] == init;
    } else {
      var last := rows[|rows| - 1];
      DeleteKeepsLast(rows, id);
      PrefixKeepsUniqueIds(rows, |rows| - 1);
      assert init[i].id == id;
      DeleteRowAt(init, i);
      assert rows[..i] + rows[i + 1..] == init[..i] + init[i + 1..] + [last] by {
        assert init[..i] == rows[..i];
        assert init[i + 1..] + [last] == rows[i + 1..];
      }
    }
  }

  /** Under the primary-key constraint, deleting an id that is present
      removes exactly one row, and the constraint still holds afterwards. */
  lemma DeletePresentId<T(!new)>(rows: seq<Row<T>>, id: int)
    requires UniqueIds(rows)
    ensures UniqueIds(DeleteWhereId(rows, id))
    ensures |DeleteWhereId(rows, id)| == if HasId(rows, id) then |rows| - 1 else |rows|
  {
    if HasId(rows, id) {
      var i :| 0 <= i < |rows| && rows[i].id == id;
      DeleteRowAt(rows, i);
      RemoveKeepsUniqueIds(rows, i);
    } else {
      DeleteAbsentId(rows, id);
    }
  }
}
