/**
 * The table operation both generations of the pipeline use to save a
 * record: `merge_insert(key).when_matched_update_all().when_not_matched_insert_all()`
 * over an in-memory list of rows.
 */
module Store {

  /** Some row has the key of `row`. */
  predicate HasKey<R>(rows: seq<R>, k: string, key: R -> string)
  {
    exists i :: 0 <= i < |rows| && key(rows[i]) == k
  }

  /**
   * Every row whose key matches is replaced by `row`; if none matches,
   * `row` is appended.
   */
  function Upsert<R>(rows: seq<R>, row: R, key: R -> string): seq<R>
  {
    if HasKey(rows, key(row), key) then
      seq(|rows|, i requires 0 <= i < |rows| => if key(rows[i]) == key(row) then row else rows[i])
    else rows + [row]
  }

  /** No two rows share a key. */
  predicate UniqueKeys<R>(rows: seq<R>, key: R -> string)
  {
    forall i, j :: 0 <= i < j < |rows| ==> key(rows[i]) != key(rows[j])
  }

  /**
   * After the upsert the row is stored, every row with another key is kept
   * in place, and nothing else is added.
   */
  lemma UpsertSpec<R>(rows: seq<R>, row: R, key: R -> string)
    ensures var r := Upsert(rows, row, key);
      && row in r
      && |r| == (if HasKey(rows, key(row), key) then |rows| else |rows| + 1)
      && (forall i :: 0 <= i < |rows| ==> r[i] == if key(rows[i]) == key(row) then row else rows[i])
  {
    var r := Upsert(rows, row, key);
    if HasKey(rows, key(row), key) {
      var j :| 0 <= j < |rows| && key(rows[j]) == key(row);
      assert r[j] == row;
    } else {
      assert r[|rows|] == row;
    }
  }

  /** A row with the key is in the result exactly when it is the upserted row. */
  lemma UpsertRowsWithKey<R>(rows: seq<R>, row: R, key: R -> string, x: R)
    requires x in Upsert(rows, row, key) && key(x) == key(row)
    ensures x == row
  {
  }

  /** Rows with other keys are neither lost nor changed. */
  lemma UpsertKeepsOthers<R>(rows: seq<R>, row: R, key: R -> string, x: R)
    requires key(x) != key(row)
    ensures x in Upsert(rows, row, key) <==> x in rows
  {
    UpsertSpec(rows, row, key);
    var r := Upsert(rows, row, key);
    if x in rows {
      var i :| 0 <= i < |rows| && rows[i] == x;
      assert r[i] == x;
    }
  }

  /** Keys stay unique: merging on the key never makes a duplicate. */
  lemma UpsertKeepsKeysUnique<R>(rows: seq<R>, row: R, key: R -> string)
    requires UniqueKeys(rows, key)
    ensures UniqueKeys(Upsert(rows, row, key), key)
  {
    var r := Upsert(rows, row, key);
    UpsertSpec(rows, row, key);
    if !HasKey(rows, key(row), key) {
      forall i, j | 0 <= i < j < |r| ensures key(r[i]) != key(r[j]) {
        if j == |rows| {
          assert !(key(rows[i]) == key(row));
        }
      }
    }
  }

  /** Merging the same row twice is the same as merging it once. */
  lemma UpsertIdempotent<R>(rows: seq<R>, row: R, key: R -> string)
    ensures Upsert(Upsert(rows, row, key), row, key) == Upsert(rows, row, key)
  {
    var r := Upsert(rows, row, key);
    UpsertSpec(rows, row, key);
    var j :| 0 <= j < |r| && r[j] == row;
    assert HasKey(r, key(row), key);
    var r2 := Upsert(r, row, key);
    forall i | 0 <= i < |r| ensures r2[i] == r[i] {
      if i == |rows| {
        assert r[i] == row;
      }
    }
  }
}
