/**
 The results tables (`create_table` and `upsert_data`). Each table holds rows
 with a unique (hostname, date, section); an upsert inserts a new key at the
 end and, on a conflict, overwrites the non-key columns of the existing row
 in place. A database maps table names to their rows.
 */
module Store {
  import opened Rows

  /** The unique key of every results table. */
  datatype Key = Key(hostname: string, date: string, section: string)

  function KeyOf(r: Row): Key {
    Key(r.hostname, r.date, r.section)
  }

  /** The table's `UNIQUE (hostname, date, section)` constraint. */
  predicate UniqueKeys(rows: seq<Row>) {
    forall i, j :: 0 <= i < j < |rows| ==> KeyOf(rows[i]) != KeyOf(rows[j])
  }

  /** True iff some row has key `k`. */
  predicate HasKey(rows: seq<Row>, k: Key) {
    exists i :: 0 <= i < |rows| && KeyOf(rows[i]) == k
  }

  /** `DO UPDATE SET os_footprint = EXCLUDED.os_footprint, ...`: the existing
      row keeps its key columns and takes every other column from the new row. */
  function Overwrite(existing: Row, incoming: Row): (r: Row)
    ensures KeyOf(r) == KeyOf(existing)
    ensures KeyOf(existing) == KeyOf(incoming) ==> r == incoming
  {
    existing.(osFootprint := incoming.osFootprint,
              sectionName := incoming.sectionName,
              scored := incoming.scored,
              checklist := incoming.checklist,
              deviation := incoming.deviation)
  }

  /** `INSERT ... ON CONFLICT (hostname, date, section) DO UPDATE` of one row. */
  function Upsert(rows: seq<Row>, r: Row): (out: seq<Row>)
    ensures HasKey(rows, KeyOf(r)) ==> |out| == |rows|
    ensures !HasKey(rows, KeyOf(r)) ==> out == rows + [r]
    ensures forall i :: 0 <= i < |rows| && KeyOf(rows[i]) != KeyOf(r) ==> out[i] == rows[i]
    ensures forall i :: 0 <= i < |rows| && KeyOf(rows[i]) == KeyOf(r) ==> out[i] == r
  {
    if HasKey(rows, KeyOf(r)) then
      seq(|rows|, i requires 0 <= i < |rows| =>
        if KeyOf(rows[i]) == KeyOf(r) then Overwrite(rows[i], r) else rows[i])
    else
      rows + [r]
  }

  /** After an upsert the key constraint still holds and the new row is the
      one and only row with its key. */
  lemma UpsertKeepsUnique(rows: seq<Row>, r: Row)
    requires UniqueKeys(rows)
    ensures UniqueKeys(Upsert(rows, r))
    ensures r in Upsert(rows, r)
    ensures forall i :: 0 <= i < |Upsert(rows, r)| ==> (KeyOf(Upsert(rows, r)[i]) == KeyOf(r) <==> Upsert(rows, r)[i] == r)
  {
    var out := Upsert(rows, r);
    if !HasKey(rows, KeyOf(r)) {
      assert out[|rows|] == r;
    } else {
      var i :| 0 <= i < |rows| && KeyOf(rows[i]) == KeyOf(r);
      assert out[i] == r;
    }
  }

  /** Repeating an upsert changes nothing: a rerun of a check on the same day
      overwrites its row with the same values. */
  lemma UpsertIdempotent(rows: seq<Row>, r: Row)
    requires UniqueKeys(rows)
    ensures Upsert(Upsert(rows, r), r) == Upsert(rows, r)
  {
    var once := Upsert(rows, r);
    UpsertKeepsUnique(rows, r);
    var i :| 0 <= i < |once| && once[i] == r;
    assert HasKey(once, KeyOf(r));
    var twice := Upsert(once, r);
    assert |twice| == |once|;
    forall k | 0 <= k < |once|
      ensures twice[k] == once[k]
    {
    }
  }

  /** The table read as a map from key to row: the reference meaning of a
      table with unique keys. */
  function Contents(rows: seq<Row>): (m: map<Key, Row>)
    ensures forall k :: k in m <==> HasKey(rows, k)
    ensures forall k :: k in m ==> m[k] in rows && KeyOf(m[k]) == k
  {
    if rows == [] then map[]
    else
      var n := |rows| - 1;
      var m := Contents(rows[..n])[KeyOf(rows[n]) := rows[n]];
      assert forall k :: HasKey(rows, k) <==> HasKey(rows[..n], k) || k == KeyOf(rows[n]) by {
        forall k | HasKey(rows, k)
          ensures HasKey(rows[..n], k) || k == KeyOf(rows[n])
        {
          var i :| 0 <= i < |rows| && KeyOf(rows[i]) == k;
          if i < n {
            assert KeyOf(rows[..n][i]) == k;
          }
        }
      }
      m
  }

  /** With unique keys, each row is what the map holds under its key. */
  lemma {:induction false} ContentsAt(rows: seq<Row>, i: nat)
    requires UniqueKeys(rows) && i < |rows|
    ensures Contents(rows)[KeyOf(rows[i])] == rows[i]
  {
    var n := |rows| - 1;
    if i < n {
      assert UniqueKeys(rows[..n]);
      ContentsAt(rows[..n], i);
      assert rows[..n][i] == rows[i];
      assert KeyOf(rows[i]) != KeyOf(rows[n]);
    }
  }

  /** After an upsert the table has exactly the keys it had, plus the new row's. */
  lemma UpsertKeys(rows: seq<Row>, r: Row)
    ensures forall k :: HasKey(Upsert(rows, r), k) <==> HasKey(rows, k) || k == KeyOf(r)
  {
    var out := Upsert(rows, r);
    forall k | HasKey(rows, k) || k == KeyOf(r)
      ensures HasKey(out, k)
    {
      if k != KeyOf(r) {
        var i :| 0 <= i < |rows| && KeyOf(rows[i]) == k;
        assert KeyOf(out[i]) == k;
      } else if HasKey(rows, k) {
        var i :| 0 <= i < |rows| && KeyOf(rows[i]) == k;
        assert out[i] == r;
      } else {
        assert out[|rows|] == r;
      }
    }
    forall k | HasKey(out, k) && k != KeyOf(r)
      ensures HasKey(rows, k)
    {
      var i :| 0 <= i < |out| && KeyOf(out[i]) == k;
      assert i < |rows| && out[i] == rows[i];
    }
  }

  /** A table with unique keys whose keys are those of `m` and whose every
      row is what `m` holds under its key has contents `m`. */
  lemma ContentsAgree(rows: seq<Row>, m: map<Key, Row>)
    requires UniqueKeys(rows)
    requires forall k :: HasKey(rows, k) <==> k in m
    requires forall i :: 0 <= i < |rows| ==> KeyOf(rows[i]) in m && m[KeyOf(rows[i])] == rows[i]
    ensures Contents(rows) == m
  {
    var c := Contents(rows);
    forall k
      ensures k in c <==> k in m
    {
      assert k in c <==> HasKey(rows, k);
    }
    forall k | k in c
      ensures c[k] == m[k]
    {
      var i :| 0 <= i < |rows| && KeyOf(rows[i]) == k;
      ContentsAt(rows, i);
    }
    MapsAgree(c, m);
  }

  /** Two maps with the same keys that agree on every key are equal. */
  lemma MapsAgree(a: map<Key, Row>, b: map<Key, Row>)
    requires forall k :: k in a <==> k in b
    requires forall k :: k in a ==> a[k] == b[k]
    ensures a == b
  {
  }

  /** An upsert is a map update of the table's contents: the new row is found
      under its key and every other key keeps its row. */
  lemma UpsertIsMapUpdate(rows: seq<Row>, r: Row)
    requires UniqueKeys(rows)
    ensures Contents(Upsert(rows, r)) == Contents(rows)[KeyOf(r) := r]
  {
    var out := Upsert(rows, r);
    var m := Contents(rows)[KeyOf(r) := r];
    UpsertKeepsUnique(rows, r);
    UpsertKeys(rows, r);
    forall i | 0 <= i < |out|
      ensures KeyOf(out[i]) in m && m[KeyOf(out[i])] == out[i]
    {
      UpsertRowAt(rows, r, i);
    }
    ContentsAgree(out, m);
  }

  /** Each row of an upserted table is what the map update holds under its key. */
  lemma UpsertRowAt(rows: seq<Row>, r: Row, i: nat)
    requires UniqueKeys(rows) && i < |Upsert(rows, r)|
    ensures var out := Upsert(rows, r);
      var m := Contents(rows)[KeyOf(r) := r];
      KeyOf(out[i]) in m && m[KeyOf(out[i])] == out[i]
  {
    var out := Upsert(rows, r);
    UpsertKeepsUnique(rows, r);
    if KeyOf(out[i]) != KeyOf(r) {
      assert i < |rows| && out[i] == rows[i];
      ContentsAt(rows, i);
    }
  }

  /** The map update that a batch of rows describes: later rows win. */
  function UpdateAll(m: map<Key, Row>, data: seq<Row>): map<Key, Row> {
    if data == [] then m
    else UpdateAll(m, data[..|data| - 1])[KeyOf(data[|data| - 1]) := data[|data| - 1]]
  }

  /** `cursor.executemany(upsert_query, data)`: the rows of `data` upserted one
      after another. The result keeps the key constraint, and its contents are
      the old contents updated with `data`, a later row of `data` winning over
      an earlier one with the same key. */
  method ExecuteMany(rows: seq<Row>, data: seq<Row>) returns (out: seq<Row>)
    requires UniqueKeys(rows)
    ensures UniqueKeys(out)
    ensures Contents(out) == UpdateAll(Contents(rows), data)
  {
    out := rows;
    var n := 0;
    while n < |data|
      invariant n <= |data|
      invariant UniqueKeys(out)
      invariant Contents(out) == UpdateAll(Contents(rows), data[..n])
    {
      UpsertKeepsUnique(out, data[n]);
      UpsertIsMapUpdate(out, data[n]);
      out := Upsert(out, data[n]);
      assert data[..n + 1][..n] == data[..n];
      n := n + 1;
    }
    assert data[..n] == data;
  }

  /** The database: each existing table's rows, by table name. */
  type Database = map<string, seq<Row>>

  /** True iff every table keeps its key constraint. */
  predicate Valid(db: Database) {
    forall t :: t in db ==> UniqueKeys(db[t])
  }

  /** `CREATE TABLE IF NOT EXISTS`: an absent table is created empty, an existing one is left alone. */
  function CreateTable(db: Database, table: string): (d: Database)
    ensures table in d
    ensures table in db ==> d == db
    ensures table !in db ==> d == db[table := []]
  {
    if table in db then db else db[table := []]
  }

  /** The rows of `table`, an absent table read as empty. */
  function TableRows(db: Database, table: string): (rows: seq<Row>)
    ensures table !in db ==> rows == []
    ensures table in db ==> rows == db[table]
  {
    if table in db then db[table] else []
  }

  /** Replacing one table's rows leaves every other table as it was. */
  lemma SetTableKeepsOthers(db: Database, table: string, rows: seq<Row>)
    ensures forall t :: t != table ==> (t in db[table := rows] <==> t in db) && (t in db ==> db[table := rows][t] == db[t])
  {
  }

  /** One `write_output_to_database` transaction for row `r` into `table`:
      `CREATE TABLE IF NOT EXISTS`, then the upsert, then the commit. A
      committed transaction leaves the table's contents updated at the row's
      key, every other key keeping its row. When the transaction fails after
      connecting (`committed` is false) it is rolled back and the database is
      unchanged. Other tables are never touched. */
  function WriteRow(db: Database, table: string, r: Row, committed: bool): (d: Database)
    requires Valid(db)
    ensures Valid(d)
    ensures !committed ==> d == db
    ensures committed ==> table in d && r in d[table]
    ensures committed ==> Contents(d[table]) == Contents(TableRows(db, table))[KeyOf(r) := r]
    ensures forall t :: t != table ==> (t in d <==> t in db) && (t in db ==> d[t] == db[t])
  {
    if !committed then db
    else
      var rows := CreateTable(db, table)[table];
      UpsertKeepsUnique(rows, r);
      UpsertIsMapUpdate(rows, r);
      var upserted := Upsert(rows, r);
      SetTableKeepsOthers(db, table, upserted);
      db[table := upserted]
  }
}
