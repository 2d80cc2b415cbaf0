/**
 * A database table as the sequence of its rows in storage order, each row
 * identified by a key function. This is the abstract store behind the gorm
 * repositories: `Where("id = ?", id).Take`, `Updates`, `Delete` and `Find`
 * become Find, UpdateWhere, RemoveWhere and the sequence itself.
 */
module Table {
  import opened Wrappers
  import opened Models

  /** Some row of `rows` has key `id`. */
  ghost predicate Has<R>(rows: seq<R>, key: R -> Uuid, id: Uuid)
  {
    exists i | 0 <= i < |rows| :: key(rows[i]) == id
  }

  /** No two rows share a key: the primary-key constraint. */
  ghost predicate UniqueKeys<R>(rows: seq<R>, key: R -> Uuid)
  {
    forall i, j | 0 <= i < j < |rows| :: key(rows[i]) != key(rows[j])
  }

  /** `Where("id = ?", id).Take(...)`: the first row with key `id`. */
  function Find<R>(rows: seq<R>, key: R -> Uuid, id: Uuid): (r: Option<R>)
    ensures r.Some? ==> r.value in rows && key(r.value) == id
    ensures r.None? <==> forall i | 0 <= i < |rows| :: key(rows[i]) != id
  {
    if |rows| == 0 then None
    else if key(rows[0]) == id then Some(rows[0])
    else Find(rows[1..], key, id)
  }

  /** With unique keys, the row Find returns is the one at the position of that key. */
  lemma FindUnique<R>(rows: seq<R>, key: R -> Uuid, i: nat)
    requires UniqueKeys(rows, key) && i < |rows|
    ensures Find(rows, key, key(rows[i])) == Some(rows[i])
  {
  }

  /**
   * `Where("id = ?", id).Updates(...)`: every row with key `id` is replaced by
   * `f` of itself; all other rows, and the order, stay as they are.
   */
  function UpdateWhere<R>(rows: seq<R>, key: R -> Uuid, id: Uuid, f: R -> R): (r: seq<R>)
    ensures |r| == |rows|
    ensures forall i | 0 <= i < |rows| :: r[i] == if key(rows[i]) == id then f(rows[i]) else rows[i]
  {
    if |rows| == 0 then []
    else [if key(rows[0]) == id then f(rows[0]) else rows[0]] + UpdateWhere(rows[1..], key, id, f)
  }

  /** An update that keeps the key of the rows it touches keeps the keys unique. */
  lemma UpdateWhereKeepsUnique<R>(rows: seq<R>, key: R -> Uuid, id: Uuid, f: R -> R)
    requires UniqueKeys(rows, key)
    requires forall i | 0 <= i < |rows| :: key(rows[i]) == id ==> key(f(rows[i])) == id
    ensures UniqueKeys(UpdateWhere(rows, key, id, f), key)
  {
  }

  /** `Where("id = ?", id).Delete(...)`: the rows without key `id`, in their order. */
  function RemoveWhere<R>(rows: seq<R>, key: R -> Uuid, id: Uuid): (r: seq<R>)
    ensures |r| <= |rows|
    ensures forall i | 0 <= i < |r| :: r[i] in rows && key(r[i]) != id
    ensures forall i | 0 <= i < |rows| :: key(rows[i]) != id ==> rows[i] in r
  {
    if |rows| == 0 then []
    else if key(rows[0]) == id then RemoveWhere(rows[1..], key, id)
    else [rows[0]] + RemoveWhere(rows[1..], key, id)
  }

  /**
   * RemoveWhere is a filter: on a single row it keeps the row exactly when
   * its key differs, and on a concatenation it works piecewise; so the rows
   * that remain keep their order and their multiplicity.
   */
  lemma {:induction false} RemoveWhereFilter<R>(a: seq<R>, b: seq<R>, key: R -> Uuid, id: Uuid)
    ensures forall x: R :: RemoveWhere([x], key, id) == if key(x) == id then [] else [x]
    ensures RemoveWhere(a + b, key, id) == RemoveWhere(a, key, id) + RemoveWhere(b, key, id)
  {
    forall x: R ensures RemoveWhere([x], key, id) == if key(x) == id then [] else [x] {
      assert [x][1..] == [];
    }
    if |a| == 0 {
      assert a + b == b;
    } else {
      assert (a + b)[0] == a[0];
      assert (a + b)[1..] == a[1..] + b;
      RemoveWhereFilter(a[1..], b, key, id);
    }
  }

  /** Deleting rows keeps the remaining keys unique. */
  lemma {:induction false} RemoveWhereKeepsUnique<R>(rows: seq<R>, key: R -> Uuid, id: Uuid)
    requires UniqueKeys(rows, key)
    ensures UniqueKeys(RemoveWhere(rows, key, id), key)
  {
    if |rows| > 0 {
      var tail := rows[1..];
      assert UniqueKeys(tail, key) by {
        forall a, b | 0 <= a < b < |tail| ensures key(tail[a]) != key(tail[b]) {
          assert tail[a] == rows[a + 1] && tail[b] == rows[b + 1];
        }
      }
      RemoveWhereKeepsUnique(tail, key, id);
      var rest := RemoveWhere(tail, key, id);
      if key(rows[0]) != id {
        forall j | 0 <= j < |rest| ensures key(rows[0]) != key(rest[j]) {
          assert rest[j] in tail;
          var k :| 0 <= k < |tail| && tail[k] == rest[j];
          assert tail[k] == rows[k + 1];
        }
        var r := [rows[0]] + rest;
        forall a, b | 0 <= a < b < |r| ensures key(r[a]) != key(r[b]) {
          if a == 0 {
            assert r[b] == rest[b - 1];
          } else {
            assert r[a] == rest[a - 1] && r[b] == rest[b - 1];
          }
        }
      }
    }
  }

  /** The largest key in the table, 0 for an empty table. */
  function MaxKey<R>(rows: seq<R>, key: R -> Uuid): (m: Uuid)
    ensures forall i | 0 <= i < |rows| :: key(rows[i]) <= m
  {
    if |rows| == 0 then 0
    else
      var rest := MaxKey(rows[1..], key);
      if key(rows[0]) > rest then key(rows[0]) else rest
  }

  /**
   * The id that `uuid.New()` hands to a new row, stood in for by one more than
   * the largest key: it is never uuid.Nil and never already in the table.
   */
  function FreshKey<R>(rows: seq<R>, key: R -> Uuid): (k: Uuid)
    ensures k != NilUuid
    ensures forall i | 0 <= i < |rows| :: key(rows[i]) != k
  {
    MaxKey(rows, key) + 1
  }

  /** Appending a row with a key the table does not have keeps the keys unique. */
  lemma AppendFreshKeepsUnique<R>(rows: seq<R>, key: R -> Uuid, row: R)
    requires UniqueKeys(rows, key)
    requires forall i | 0 <= i < |rows| :: key(rows[i]) != key(row)
    ensures UniqueKeys(rows + [row], key)
  {
  }
}
