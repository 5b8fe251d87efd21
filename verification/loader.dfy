/** `load`: the `hourly_weather` table keyed on (STATION, DATE), and its
    `INSERT OR REPLACE` of one clean batch. */
module Loader {
  import opened Wrappers
  import opened Cells
  import opened Transformer

  /** The table's primary key. */
  type Key = (Cell, string)

  function KeyOf(r: CleanRow): Key {
    (r.station, r.date)
  }

  /** The rows of `rows` that have a STATION, in order: SQLite can key
      these. */
  function WithStation(rows: seq<CleanRow>): seq<CleanRow> {
    if rows == [] then []
    else
      var last := rows[|rows| - 1];
      WithStation(rows[..|rows| - 1]) + (if last.station != Missing then [last] else [])
  }

  /** The rows of `rows` whose STATION is NULL, in order. A NULL in a
      primary-key column of an ordinary SQLite table equals no other value,
      not even another NULL, so these rows never replace anything. */
  function WithoutStation(rows: seq<CleanRow>): seq<CleanRow> {
    if rows == [] then []
    else
      var last := rows[|rows| - 1];
      WithoutStation(rows[..|rows| - 1]) + (if last.station == Missing then [last] else [])
  }

  /** The keyed rows are exactly the batch's rows with a STATION, and the
      NULL-keyed rows exactly those without. */
  lemma {:induction false} StationMembers(rows: seq<CleanRow>, x: CleanRow)
    ensures x in WithStation(rows) <==> x in rows && x.station != Missing
    ensures x in WithoutStation(rows) <==> x in rows && x.station == Missing
  {
    if rows != [] {
      var n := |rows| - 1;
      assert rows == rows[..n] + [rows[n]];
      StationMembers(rows[..n], x);
    }
  }

  /** Every row of a batch is either keyed or NULL-keyed, none lost and none
      counted twice. */
  lemma {:induction false} StationPartition(rows: seq<CleanRow>)
    ensures |WithStation(rows)| + |WithoutStation(rows)| == |rows|
  {
    if rows != [] {
      StationPartition(rows[..|rows| - 1]);
    }
  }

  /** Splitting by STATION one more row. */
  lemma StationSplitSnoc(rows: seq<CleanRow>, x: CleanRow)
    ensures WithStation(rows + [x]) == WithStation(rows) + (if x.station != Missing then [x] else [])
    ensures WithoutStation(rows + [x]) == WithoutStation(rows) + (if x.station == Missing then [x] else [])
  {
    assert (rows + [x])[..|rows|] == rows;
    assert WithStation(rows) + [] == WithStation(rows);
    assert WithoutStation(rows) + [] == WithoutStation(rows);
  }

  /** Keeping the rows with a STATION works row by row. */
  lemma {:induction false} WithStationAppend(a: seq<CleanRow>, b: seq<CleanRow>)
    ensures WithStation(a + b) == WithStation(a) + WithStation(b)
  {
    if b == [] {
      assert a + b == a;
    } else {
      var n := |b| - 1;
      var t := WithStation([b[n]]);
      assert a + b == (a + b[..n]) + [b[n]];
      assert b == b[..n] + [b[n]];
      StationSplitSnoc(a + b[..n], b[n]);
      StationSplitSnoc(b[..n], b[n]);
      StationSplitSnoc([], b[n]);
      assert [] + [b[n]] == [b[n]];
      calc {
        WithStation(a + b);
        WithStation(a + b[..n]) + t;
        { WithStationAppend(a, b[..n]); }
        WithStation(a) + WithStation(b[..n]) + t;
        WithStation(a) + WithStation(b);
      }
    }
  }

  /** Keeping the rows without a STATION works row by row. */
  lemma {:induction false} WithoutStationAppend(a: seq<CleanRow>, b: seq<CleanRow>)
    ensures WithoutStation(a + b) == WithoutStation(a) + WithoutStation(b)
  {
    if b == [] {
      assert a + b == a;
    } else {
      var n := |b| - 1;
      var t := WithoutStation([b[n]]);
      assert a + b == (a + b[..n]) + [b[n]];
      assert b == b[..n] + [b[n]];
      StationSplitSnoc(a + b[..n], b[n]);
      StationSplitSnoc(b[..n], b[n]);
      StationSplitSnoc([], b[n]);
      assert [] + [b[n]] == [b[n]];
      calc {
        WithoutStation(a + b);
        WithoutStation(a + b[..n]) + t;
        { WithoutStationAppend(a, b[..n]); }
        WithoutStation(a) + WithoutStation(b[..n]) + t;
        WithoutStation(a) + WithoutStation(b);
      }
    }
  }

  /** A batch whose rows all have a STATION is keyed in full. */
  lemma {:induction false} AllStationed(rows: seq<CleanRow>)
    requires forall r :: r in rows ==> r.station != Missing
    ensures WithStation(rows) == rows
    ensures WithoutStation(rows) == []
  {
    if rows != [] {
      var n := |rows| - 1;
      assert rows == rows[..n] + [rows[n]];
      AllStationed(rows[..n]);
    }
  }

  /** Every stored row sits under its own primary key. */
  ghost predicate Keyed(table: map<Key, CleanRow>) {
    forall k :: k in table ==> KeyOf(table[k]) == k
  }

  /** The table after inserting or replacing the rows of `rows`, first to
      last. */
  function UpsertAll(table: map<Key, CleanRow>, rows: seq<CleanRow>): map<Key, CleanRow> {
    if rows == [] then table
    else
      var last := rows[|rows| - 1];
      UpsertAll(table, rows[..|rows| - 1])[KeyOf(last) := last]
  }

  /** Upserting one more row replaces whatever its key held. */
  lemma UpsertSnoc(table: map<Key, CleanRow>, rows: seq<CleanRow>, row: CleanRow)
    ensures UpsertAll(table, rows + [row]) == UpsertAll(table, rows)[KeyOf(row) := row]
  {
    assert (rows + [row])[..|rows|] == rows;
  }

  /** The last row of `rows` with key `k`, if any. */
  function LastWithKey(rows: seq<CleanRow>, k: Key): (r: Option<CleanRow>)
    ensures r.Some? ==> r.value in rows && KeyOf(r.value) == k
    ensures r.None? <==> forall x :: x in rows ==> KeyOf(x) != k
  {
    if rows == [] then None
    else if KeyOf(rows[|rows| - 1]) == k then Some(rows[|rows| - 1])
    else
      var r := LastWithKey(rows[..|rows| - 1], k);
      assert rows == rows[..|rows| - 1] + [rows[|rows| - 1]];
      r
  }

  /** What an upsert leaves under each key: the last row of the batch with
      that key, or else what was stored before. */
  lemma {:induction false} UpsertAllAt(table: map<Key, CleanRow>, rows: seq<CleanRow>, k: Key)
    ensures k in UpsertAll(table, rows) <==> k in table || LastWithKey(rows, k).Some?
    ensures k in UpsertAll(table, rows) ==>
      UpsertAll(table, rows)[k] == match LastWithKey(rows, k) case Some(r) => r case None => table[k]
  {
    if rows != [] {
      UpsertAllAt(table, rows[..|rows| - 1], k);
    }
  }

  /** Loading the same batch twice leaves the table as loading it once. */
  lemma UpsertIdempotent(table: map<Key, CleanRow>, rows: seq<CleanRow>)
    ensures UpsertAll(UpsertAll(table, rows), rows) == UpsertAll(table, rows)
  {
    var once := UpsertAll(table, rows);
    var twice := UpsertAll(once, rows);
    forall k | true
      ensures k in twice <==> k in once
      ensures k in twice ==> twice[k] == once[k]
    {
      UpsertAllAt(table, rows, k);
      UpsertAllAt(once, rows, k);
    }
  }

  /** Last write wins: a row of the batch that no later row of the batch
      shares a key with is what the table holds under its key, one row, not a
      duplicate. */
  lemma UpsertLastWins(table: map<Key, CleanRow>, rows: seq<CleanRow>, i: nat)
    requires i < |rows|
    requires forall j :: i < j < |rows| ==> KeyOf(rows[j]) != KeyOf(rows[i])
    ensures KeyOf(rows[i]) in UpsertAll(table, rows)
    ensures UpsertAll(table, rows)[KeyOf(rows[i])] == rows[i]
  {
    var k := KeyOf(rows[i]);
    UpsertAllAt(table, rows, k);
    LastIsLatest(rows, i);
  }

  lemma {:induction false} LastIsLatest(rows: seq<CleanRow>, i: nat)
    requires i < |rows|
    requires forall j :: i < j < |rows| ==> KeyOf(rows[j]) != KeyOf(rows[i])
    ensures LastWithKey(rows, KeyOf(rows[i])) == Some(rows[i])
  {
    if i < |rows| - 1 {
      LastIsLatest(rows[..|rows| - 1], i);
    }
  }

  /** Keys the batch does not mention keep what they had, or stay absent. */
  lemma UpsertUntouched(table: map<Key, CleanRow>, rows: seq<CleanRow>, k: Key)
    requires forall r :: r in rows ==> KeyOf(r) != k
    ensures k in UpsertAll(table, rows) <==> k in table
    ensures k in table ==> UpsertAll(table, rows)[k] == table[k]
  {
    UpsertAllAt(table, rows, k);
  }

  /** The keys after an upsert are the old keys and the batch's keys: a row
      whose key is already stored replaces it rather than adding one. */
  lemma UpsertKeys(table: map<Key, CleanRow>, rows: seq<CleanRow>)
    ensures UpsertAll(table, rows).Keys == table.Keys + set r | r in rows :: KeyOf(r)
  {
    var after := UpsertAll(table, rows);
    forall k | true
      ensures k in after.Keys <==> k in table.Keys || exists r :: r in rows && KeyOf(r) == k
    {
      UpsertAllAt(table, rows, k);
    }
  }

  /** Loading two batches one after the other is loading their
      concatenation. */
  lemma {:induction false} UpsertSequential(table: map<Key, CleanRow>, first: seq<CleanRow>, second: seq<CleanRow>)
    ensures UpsertAll(UpsertAll(table, first), second) == UpsertAll(table, first + second)
  {
    if second == [] {
      assert first + second == first;
    } else {
      var n := |second| - 1;
      UpsertSequential(table, first, second[..n]);
      assert (first + second)[..|first + second| - 1] == first + second[..n];
      assert (first + second)[|first + second| - 1] == second[n];
    }
  }

  /** Upserting keeps every stored row under its own key. */
  lemma {:induction false} UpsertKeepsKeyed(table: map<Key, CleanRow>, rows: seq<CleanRow>)
    requires Keyed(table)
    ensures Keyed(UpsertAll(table, rows))
  {
    if rows != [] {
      UpsertKeepsKeyed(table, rows[..|rows| - 1]);
    }
  }

  /** Every stored row sits under its own primary key, whose STATION is not
      NULL. */
  ghost predicate StationKeyed(table: map<Key, CleanRow>) {
    Keyed(table) && forall k :: k in table ==> k.0 != Missing
  }

  /** Every row kept apart from the keys has a NULL STATION. */
  ghost predicate AllNullStation(rows: seq<CleanRow>) {
    forall r :: r in rows ==> r.station == Missing
  }

  lemma StationKeyedInsert(table: map<Key, CleanRow>, row: CleanRow)
    requires StationKeyed(table) && row.station != Missing
    ensures StationKeyed(table[KeyOf(row) := row])
  {
  }

  lemma AllNullStationAppend(rows: seq<CleanRow>, row: CleanRow)
    requires AllNullStation(rows) && row.station == Missing
    ensures AllNullStation(rows + [row])
  {
  }

  /** What loading one more row of a batch adds: a row with a STATION is
      upserted, a row without one is appended to the NULL-keyed rows. */
  lemma LoadStep(table: map<Key, CleanRow>, unkeyed: seq<CleanRow>, rows: seq<CleanRow>, i: nat)
    requires i < |rows|
    ensures UpsertAll(table, WithStation(rows[..i + 1]))
         == if rows[i].station == Missing then UpsertAll(table, WithStation(rows[..i]))
            else UpsertAll(table, WithStation(rows[..i]))[KeyOf(rows[i]) := rows[i]]
    ensures unkeyed + WithoutStation(rows[..i + 1])
         == if rows[i].station == Missing then unkeyed + WithoutStation(rows[..i]) + [rows[i]]
            else unkeyed + WithoutStation(rows[..i])
  {
    var row := rows[i];
    var keyed := WithStation(rows[..i]);
    var nulls := WithoutStation(rows[..i]);
    assert rows[..i + 1] == rows[..i] + [row];
    StationSplitSnoc(rows[..i], row);
    if row.station == Missing {
      assert keyed + [] == keyed;
      assert unkeyed + nulls + [row] == unkeyed + (nulls + [row]);
    } else {
      assert nulls + [] == nulls;
      UpsertSnoc(table, keyed, row);
    }
  }

  /** The `hourly_weather` table, as the loader updates it in place: the
      rows with a STATION under their primary key, and the rows whose STATION
      is NULL, which SQLite keeps apart from any key, in insertion order. */
  class WeatherStore {
    var table: map<Key, CleanRow>
    var unkeyed: seq<CleanRow>

    ghost predicate Valid()
      reads this
    {
      StationKeyed(table) && AllNullStation(unkeyed)
    }

    /** A new database: `CREATE TABLE IF NOT EXISTS` gives an empty table. */
    constructor ()
      ensures Valid() && table == map[] && unkeyed == []
    {
      table := map[];
      unkeyed := [];
    }

    /** `load(df, db_path)`: the staged `INSERT OR REPLACE ... SELECT *`
        inserts by position, so a batch with a column count other than the
        table's fails (ok is false) and the table is unchanged; otherwise
        every row with a STATION is inserted or replaces the row with its
        key, in batch order, and every row whose STATION is NULL is added
        anew. */
    method Load(batch: CleanBatch) returns (ok: bool)
      requires Valid()
      modifies this
      ensures Valid()
      ensures ok <==> |batch.columns| == |TableColumns|
      ensures table == if ok then UpsertAll(old(table), WithStation(batch.rows)) else old(table)
      ensures unkeyed == if ok then old(unkeyed) + WithoutStation(batch.rows) else old(unkeyed)
    {
      if |batch.columns| != |TableColumns| {
        return false;
      }
      var start, startNulls := table, unkeyed;
      var keyed, nulls := table, unkeyed;
      var i := 0;
      while i < |batch.rows|
        invariant 0 <= i <= |batch.rows|
        invariant keyed == UpsertAll(start, WithStation(batch.rows[..i]))
        invariant nulls == startNulls + WithoutStation(batch.rows[..i])
        invariant StationKeyed(keyed) && AllNullStation(nulls)
      {
        var row := batch.rows[i];
        LoadStep(start, startNulls, batch.rows, i);
        if row.station == Missing {
          AllNullStationAppend(nulls, row);
          nulls := nulls + [row];
        } else {
          StationKeyedInsert(keyed, row);
          keyed := keyed[KeyOf(row) := row];
        }
        i := i + 1;
      }
      assert batch.rows[..i] == batch.rows;
      table, unkeyed := keyed, nulls;
      return true;
    }
  }

  /** A transformed batch has no row with a NULL STATION: all of it is keyed,
      so loading it is the upsert alone. */
  lemma TransformedRowsKeyed(batch: RawBatch, parseDate: Cell -> Option<string>)
    requires Transform(batch, parseDate).Success?
    ensures WithStation(Transform(batch, parseDate).value.rows) == Transform(batch, parseDate).value.rows
    ensures WithoutStation(Transform(batch, parseDate).value.rows) == []
  {
    TransformOutputValid(batch, parseDate);
    AllStationed(Transform(batch, parseDate).value.rows);
  }

  /** Loading the same batch twice, as the top-level loop does when a batch
      repeats: the keyed table ends as after one load, but the rows whose
      STATION is NULL are stored twice. */
  method LoadTwice(store: WeatherStore, batch: CleanBatch) returns (ok: bool)
    requires store.Valid()
    modifies store
    ensures store.Valid()
    ensures ok <==> |batch.columns| == |TableColumns|
    ensures store.table == if ok then UpsertAll(old(store.table), WithStation(batch.rows)) else old(store.table)
    ensures store.unkeyed
         == if ok then old(store.unkeyed) + WithoutStation(batch.rows) + WithoutStation(batch.rows) else old(store.unkeyed)
  {
    ok := store.Load(batch);
    var again := store.Load(batch);
    UpsertIdempotent(old(store.table), WithStation(batch.rows));
  }

  /** Loading a transformed batch a second time changes nothing: its rows
      all have a STATION, so the second load only replaces rows by
      themselves. */
  method ReloadTransformed(store: WeatherStore, raw: RawBatch, parseDate: Cell -> Option<string>) returns (ok: bool)
    requires store.Valid()
    requires Transform(raw, parseDate).Success?
    modifies store
    ensures store.Valid()
    ensures ok <==> NAME in raw.columns
    ensures store.table
         == if ok then UpsertAll(old(store.table), Transform(raw, parseDate).value.rows) else old(store.table)
    ensures store.unkeyed == old(store.unkeyed)
  {
    var batch := Transform(raw, parseDate).value;
    TransformedRowsKeyed(raw, parseDate);
    TransformedBatchLoads(raw, parseDate);
    ok := store.Load(batch);
    var once, onceNulls := store.table, store.unkeyed;
    var again := store.Load(batch);
    UpsertIdempotent(old(store.table), batch.rows);
    assert store.table == once && store.unkeyed == onceNulls;
    assert old(store.unkeyed) + [] == old(store.unkeyed);
  }

  /** A batch from `transform` loads exactly when the raw batch had a NAME
      column: without it the staging table is one column short. */
  lemma TransformedBatchLoads(batch: RawBatch, parseDate: Cell -> Option<string>)
    requires Transform(batch, parseDate).Success?
    ensures |Transform(batch, parseDate).value.columns| == |TableColumns| <==> NAME in batch.columns
  {
  }

  /** The end-to-end example batch, transformed and upserted into an empty
      table, lands under its (STATION, DATE) key. */
  lemma EndToEndLoadExample(parseDate: Cell -> Option<string>)
    requires parseDate(Text("2023-01-01T00:00:00")) == Some("2023-01-01 00:00:00")
    ensures
      var batch := RawBatch({STATION, DATE, NAME, TMP, DEW},
                            [RawRow(Text("001"), Text("2023-01-01T00:00:00"), Text("A"), Text("+0150,5"), Text("+0050,5"))]);
      var row := CleanRow(Text("001"), "2023-01-01 00:00:00", Text("A"), Some(15.0), Some(5.0), Some(59.0));
      UpsertAll(map[], WithStation(Transform(batch, parseDate).value.rows)) == map[(Text("001"), "2023-01-01 00:00:00") := row]
  {
    var batch := RawBatch({STATION, DATE, NAME, TMP, DEW},
                          [RawRow(Text("001"), Text("2023-01-01T00:00:00"), Text("A"), Text("+0150,5"), Text("+0050,5"))]);
    var row := CleanRow(Text("001"), "2023-01-01 00:00:00", Text("A"), Some(15.0), Some(5.0), Some(59.0));
    EndToEndBatchExample(parseDate);
    assert Transform(batch, parseDate).value.rows == [row];
    TransformedRowsKeyed(batch, parseDate);
    assert [row][..0] == [];
  }
}
