/** The two MySQL tables shared by every repository (`objs` and `refs`), as
    finite maps keyed by their primary keys, and the row-level effect of the
    SQL statements the store issues against them. */
module Tables {

  /** A primary key of either table: (`oid`, `repo`) for `objs`,
      (`ref`, `repo`) for `refs`. The `repo` column is the tenant. */
  datatype Key = Key(name: string, repo: string)

  /** A row of `objs` without its key: numeric type, payload length and
      payload. The stored payload is the compressed form; the model keeps the
      uncompressed payload, since every read goes through UNCOMPRESS. */
  datatype ObjRow = ObjRow(otype: int, size: nat, data: string)

  /** The database: both tables of the installation. */
  class Database {
    var objs: map<Key, ObjRow>
    var refs: map<Key, string>

    /** The tables as `_init_db` creates them: empty. */
    constructor ()
      ensures objs == map[] && refs == map[]
    {
      objs := map[];
      refs := map[];
    }
  }

  /** The keys a batch of rows names, in any order. */
  function KeysOf<V>(rows: seq<(Key, V)>): set<Key> {
    set i | 0 <= i < |rows| :: rows[i].0
  }

  /** `m'` holds exactly the rows of `m` that do not belong to `repo`
      (and possibly different rows of `repo`). */
  ghost predicate SameOutside<V>(m: map<Key, V>, m': map<Key, V>, repo: string) {
    forall k: Key :: k.repo != repo ==> (k in m <==> k in m') && (k in m ==> m[k] == m'[k])
  }

  /** `m` and `m'` hold the same rows for `repo`. */
  ghost predicate SameInside<V>(m: map<Key, V>, m': map<Key, V>, repo: string) {
    forall k: Key :: k.repo == repo ==> (k in m <==> k in m') && (k in m ==> m[k] == m'[k])
  }

  /** `INSERT IGNORE`: a row whose key is already present is left untouched,
      otherwise the row is added. */
  function InsertIgnore<V>(m: map<Key, V>, k: Key, v: V): (r: map<Key, V>)
    ensures r.Keys == m.Keys + {k}
    ensures forall k' :: k' in m ==> r[k'] == m[k']
    ensures k !in m ==> r[k] == v
  {
    if k in m then m else m[k := v]
  }

  /** `executemany` of `INSERT IGNORE` over a batch, one row after the other. */
  function InsertAll<V>(m: map<Key, V>, rows: seq<(Key, V)>): (r: map<Key, V>)
    ensures r.Keys == m.Keys + KeysOf(rows)
    ensures forall k :: k in m ==> r[k] == m[k]
    decreases |rows|
  {
    if rows == [] then m
    else
      var last := rows[|rows| - 1];
      var prefix := rows[..|rows| - 1];
      var done := InsertAll(m, prefix);
      assert KeysOf(rows) == KeysOf(prefix) + {last.0} by {
        forall k | k in KeysOf(rows) ensures k in KeysOf(prefix) + {last.0} {
          var i :| 0 <= i < |rows| && rows[i].0 == k;
          if i < |rows| - 1 { assert prefix[i] == rows[i]; }
        }
        forall k | k in KeysOf(prefix) ensures k in KeysOf(rows) {
          var i :| 0 <= i < |prefix| && prefix[i].0 == k;
          assert rows[i] == prefix[i];
        }
      }
      InsertIgnore(done, last.0, last.1)
  }

  /** Within one batch the first row for a key wins: later duplicates are
      ignored just like rows already in the table. */
  lemma {:induction false} InsertAllFirstWins<V>(m: map<Key, V>, rows: seq<(Key, V)>, i: nat)
    requires i < |rows| && rows[i].0 !in m
    requires forall j :: 0 <= j < i ==> rows[j].0 != rows[i].0
    ensures rows[i].0 in InsertAll(m, rows) && InsertAll(m, rows)[rows[i].0] == rows[i].1
    decreases |rows|
  {
    var prefix := rows[..|rows| - 1];
    if i < |rows| - 1 {
      assert prefix[i] == rows[i];
      InsertAllFirstWins(m, prefix, i);
    }
  }

  /** Inserting rows whose keys are all present already changes nothing. */
  lemma {:induction false} InsertAllPresent<V>(m: map<Key, V>, rows: seq<(Key, V)>)
    requires KeysOf(rows) <= m.Keys
    ensures InsertAll(m, rows) == m
    decreases |rows|
  {
    if rows != [] {
      var prefix := rows[..|rows| - 1];
      assert KeysOf(prefix) <= KeysOf(rows) by {
        forall k | k in KeysOf(prefix) ensures k in KeysOf(rows) {
          var j :| 0 <= j < |prefix| && prefix[j].0 == k;
          assert rows[j] == prefix[j];
        }
      }
      InsertAllPresent(m, prefix);
      assert rows[|rows| - 1].0 in KeysOf(rows);
    }
  }

  /** Running the same batch of inserts twice leaves the table as one run does. */
  lemma InsertAllIdempotent<V>(m: map<Key, V>, rows: seq<(Key, V)>)
    ensures InsertAll(InsertAll(m, rows), rows) == InsertAll(m, rows)
  {
    InsertAllPresent(InsertAll(m, rows), rows);
  }

  /** A batch whose rows all belong to `repo` leaves every other tenant's rows
      as they were. */
  lemma {:induction false} InsertAllIsolated<V>(m: map<Key, V>, rows: seq<(Key, V)>, repo: string)
    requires forall i :: 0 <= i < |rows| ==> rows[i].0.repo == repo
    ensures SameOutside(m, InsertAll(m, rows), repo)
    decreases |rows|
  {
    if rows != [] {
      var prefix := rows[..|rows| - 1];
      InsertAllIsolated(m, prefix, repo);
    }
  }

  /** `executemany` of `DELETE ... WHERE` key, one key after the other; absent
      keys delete nothing. */
  function DeleteAll<V>(m: map<Key, V>, keys: seq<Key>): (r: map<Key, V>)
    ensures r.Keys == m.Keys - (set k | k in keys)
    ensures forall k :: k in r ==> r[k] == m[k]
    decreases |keys|
  {
    if keys == [] then m
    else
      var prefix := keys[..|keys| - 1];
      var done := DeleteAll(m, prefix);
      assert keys == prefix + [keys[|keys| - 1]];
      done - {keys[|keys| - 1]}
  }

  /** Deleting keys that all belong to `repo` leaves every other tenant's rows
      as they were. */
  lemma DeleteAllIsolated<V>(m: map<Key, V>, keys: seq<Key>, repo: string)
    requires forall i :: 0 <= i < |keys| ==> keys[i].repo == repo
    ensures SameOutside(m, DeleteAll(m, keys), repo)
  {
    var r := DeleteAll(m, keys);
    forall k: Key | k.repo != repo
      ensures (k in m <==> k in r) && (k in m ==> m[k] == r[k])
    {
      assert k !in keys;
    }
  }
}
