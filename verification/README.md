# NOAA hourly-weather pipeline: decoder, transform and upsert loader in Dafny

This project models the core of a small extract-transform-load pipeline
(`katas4.py`). The pipeline reads NOAA hourly-weather CSV batches, cleans them
and upserts them into a SQLite table `hourly_weather` keyed on
`(STATION, DATE)`. Three parts are modelled:

- **The NOAA encoded-value decoder** `parse_noaa_val` (`noaa_value.dfy`, with
  the number grammar in `decimal.dfy`). A value such as `"+0150,5"` holds a
  reading in tenths of a degree and a quality code. The decoder keeps the text
  before the first comma and parses it as a number. It gives the reading, or
  None for a non-string, a malformed number or the sentinel 9999. The model
  keeps the reading as integer tenths (`DecodeTenths`). The physical value is
  the exact real tenths / 10 (`Celsius`). `Fahrenheit` derives
  `temp_f = temp_c * 9/5 + 32`.
- **The transform** `transform` (`transform.dfy`). It is a pure function from
  a raw batch to `Result<CleanBatch, TransformError>`. Its stages follow the
  code:
  1. project onto the present columns among STATION, DATE, NAME, TMP, DEW;
  2. drop rows whose STATION or DATE is missing;
  3. normalise DATE, dropping rows whose date does not parse;
  4. decode TMP and DEW, then derive `temp_f`;
  5. drop the raw columns.

  `CleanRowOf`/`CleanAll` give an independent row-by-row reference. The lemma
  `TransformIsRowwise` proves the staged pipeline equal to it. The date parser
  (`pd.to_datetime(..., errors='coerce')` followed by `strftime`) is a function
  parameter `Cell -> Option<string>`.
- **The loader** `load` (`loader.dfy`). `WeatherStore` is a class holding the
  table as a `map<Key, CleanRow>` of the rows with a STATION, and a sequence of
  the rows whose STATION is NULL. Its `Load` method loops over the batch. It
  inserts or replaces each row that has a STATION under its `(STATION, DATE)`
  key, and appends each row without one. `UpsertAll` is the fold that specifies
  the keyed part. The lemmas about it prove four things: loading twice equals
  loading once, the last write wins, keys outside the batch are untouched, and
  the key set grows by exactly the batch's keys.

A raw field is a `Cell`: `Missing` (pandas' NaN, which is also what an empty
CSV field becomes), `Text` or `Number`.

Where the code's behaviour is surprising, the model follows the code:

- A value with no comma is not rejected. `"150".split(',')[0]` is `"150"`, so
  the value decodes to 15.0 (`NoCommaExample`, `QualityCodeIgnored`). The
  `IndexError` handler can never fire.
- The sentinel test is on the parsed number. `"+9999,1"` is absent, but
  `"-9999"` is the reading -999.9 (`NegativeSentinelExample`).
- Absent columns are not simply omitted:
  - A batch without STATION or DATE fails with pandas' `KeyError` at the key
    filter. A batch without TMP or DEW fails when those columns are decoded.
    `Transform` returns `Failure(MissingColumns(...))` in these cases.
  - A batch without NAME transforms into five columns. The loader's
    `INSERT OR REPLACE INTO hourly_weather SELECT * FROM staging` then fails,
    because the table has six columns. `Load` returns false and leaves the
    table unchanged (`TransformedBatchLoads`).
- The primary key does not make every load idempotent. The table is an
  ordinary SQLite table with no NOT NULL on its key columns. SQLite then
  accepts a NULL STATION and treats every NULL as distinct, so a row without a
  STATION never replaces anything: loading it twice stores it twice
  (`LoadTwice`). `transform` never emits such a row
  (`TransformedRowsKeyed`).

## Model

| member | source | states |
|---|---|---|
| `Decimal.Accumulate` | katas4.py:35 | scanning a string left to right succeeds exactly when every character is a digit, and then yields acc·10^len plus the place-value reading of the digits |
| `Decimal.ParseSigned` | katas4.py:35 | the number conversion succeeds exactly on the signed-decimal grammar (an optional leading sign, then digits); its value is the digits' place value, negated after a `-` |
| `Decimal.ParseFormatRoundTrip` | katas4.py:35 | converting a sign-and-digits rendering of any integer gives that integer back |
| `NoaaValue.BeforeComma` | katas4.py:35 | `split(',')[0]` is the longest comma-free prefix: a prefix with no comma, followed by a comma unless it is the whole string |
| `NoaaValue.BeforeCommaOfSplit` | katas4.py:35 | for comma-free p, the text before the first comma of p + "," + q is p, and p without a comma is kept whole |
| `NoaaValue.DecodeTenths` | katas4.py:32-38 | the decoder never fails: non-strings and malformed number parts give None; a number part n in the signed-decimal grammar (with or without a comma after it) gives Some(n), its signed value, unless n is 9999, which gives None |
| `NoaaValue.Celsius` | katas4.py:36 | the physical value is present exactly when the decoder gives a reading, and ten times it equals the reading in tenths |
| `NoaaValue.Fahrenheit` | katas4.py:44 | temp_f is present exactly when temp_c is, and (temp_f − 32)·5 = temp_c·9 |
| `NoaaValue.QualityCodeIgnored` | katas4.py:35-36 | whatever follows the first comma is ignored: p + "," + q decodes as p alone does, so a value without a comma is not rejected |
| `NoaaValue.DecodeEncoded` | katas4.py:32-38 | decoding a reading written as sign plus four digits, with any quality code, gives the reading back, except that 9999 gives None |
| `NoaaValue.ReadingExample` | katas4.py:35-36 | `"+0150,5"` decodes to 150 tenths (15.0 degrees) |
| `NoaaValue.DewPointExample` | katas4.py:35-36 | `"+0050,5"` decodes to 50 tenths (5.0 degrees) |
| `NoaaValue.SentinelExample` | katas4.py:36 | `"9999,9"` is absent |
| `NoaaValue.SignedSentinelExample` | katas4.py:36 | `"+9999,1"` is absent: the sentinel test is on the number, not the text |
| `NoaaValue.ZeroExample` | katas4.py:36 | `"0000,1"` is a legitimate zero reading |
| `NoaaValue.NoCommaExample` | katas4.py:35 | `"150"` (no comma) decodes to 150 tenths |
| `NoaaValue.NegativeSentinelExample` | katas4.py:36 | `"-9999"` is a reading, not the sentinel |
| `NoaaValue.SignOnlyExample` | katas4.py:35-38 | a number part that is only a sign gives None instead of raising |
| `Transformer.Keep` | katas4.py:21 | the wanted column names that the batch has, in the wanted order (properties in `KeepMembers`, `KeepAppend`) |
| `Transformer.Drop` | katas4.py:46 | the column names minus the dropped ones, in order (properties in `DropMembers`, `DropAppend`) |
| `Transformer.Project` | katas4.py:22 | each raw row restricted to the selected columns; NAME is blanked when the batch has none |
| `Transformer.DropMissingKeys` | katas4.py:25 | the rows whose STATION and DATE are both present, in order |
| `Transformer.NormalizeDates` | katas4.py:28-29 | each row's DATE replaced by its parsed, reformatted date; rows whose date does not parse are dropped |
| `Transformer.AddReadings` | katas4.py:40-46 | every row through `ReadRow`, in order |
| `Transformer.ReadRow` | katas4.py:40-46 | one row's temp_c and dew_point_c decoded from TMP and DEW, temp_f derived from temp_c, and TMP and DEW left out |
| `Transformer.CleanRowOf` | katas4.py:24-44 | the row-wise reference: what one raw row becomes, or None when a filter drops it (properties in `RowFate`) |
| `Transformer.CleanAll` | katas4.py:24-46 | the row-wise reference over a batch: every surviving row cleaned, in order (proved equal to the stages by `StagesAreRowwise`) |
| `Transformer.KeepMembers` | katas4.py:21 | the column filter keeps exactly the listed columns that the batch has |
| `Transformer.DropMembers` | katas4.py:46 | dropping columns keeps exactly the listed columns that are not dropped |
| `Transformer.KeepAppend` | katas4.py:21 | the column filter works name by name: filtering a concatenation concatenates the results, so order is kept |
| `Transformer.DropAppend` | katas4.py:46 | dropping columns works name by name: dropping from a concatenation concatenates the results, so order is kept |
| `Transformer.ProjectedColumns` | katas4.py:20-22 | a batch with the key and reading columns projects onto STATION, DATE, [NAME,] TMP, DEW in that order |
| `Transformer.DroppedColumns` | katas4.py:46 | appending the derived columns and dropping TMP and DEW gives the table's column layout, less NAME when it is absent |
| `Transformer.OutputColumns` | katas4.py:20-22 | a clean batch's columns are exactly the table's, less NAME when the raw batch has none |
| `Transformer.Transform` | katas4.py:18-46 | transform succeeds exactly when STATION, DATE, TMP and DEW are all present; a failure names the columns of the first failing lookup: the absent key columns (STATION before DATE), else TMP, else DEW; a success has the table's column layout (less NAME when absent) |
| `Transformer.MissingKeyColumns` | katas4.py:25 | the key columns reported absent are exactly those missing from the batch, STATION before DATE |
| `Transformer.DropMissingKeysAppend` | katas4.py:25 | the key filter works row by row: filtering a concatenation concatenates the results |
| `Transformer.NormalizeDatesAppend` | katas4.py:28-29 | date normalisation works row by row |
| `Transformer.AddReadingsAppend` | katas4.py:40-46 | decoding and deriving the readings work row by row |
| `Transformer.StagesAreRowwise` | katas4.py:22-46 | the column-at-a-time stages equal the row-wise reference `CleanAll` |
| `Transformer.TransformIsRowwise` | katas4.py:18-46 | a successful transform's rows are the row-wise reference over the batch |
| `Transformer.CleanAllAppend` | katas4.py:24-29 | rows are cleaned independently and in order, so survivors keep their relative order |
| `Transformer.DroppedRowVanishes` | katas4.py:24-29 | a row with a missing station or date, or an unparsable date, leaves no trace in the output |
| `Transformer.CleanAllNoLonger` | katas4.py:24-29 | no row is added: the output has at most as many rows as the input |
| `Transformer.CleanAllMembers` | katas4.py:24-46 | a row is in the output exactly when some input row cleans to it |
| `Transformer.RowFate` | katas4.py:24-44 | a row survives exactly when its station and date are present and its date parses; a survivor keeps its station, keeps its name when the NAME column is present (otherwise none), carries the parsed date, decodes TMP and DEW, and has temp_f = temp_c·9/5 + 32 (absent together) |
| `Transformer.TransformOutputValid` | katas4.py:18-46 | every output row has a present station and temp_f derived from temp_c, and comes from an input row with that station whose date parsed to the row's date |
| `Transformer.EndToEndRowCleans` | katas4.py:24-44 | the row (001, 2023-01-01T00:00:00, A, "+0150,5", "+0050,5") cleans to (001, "2023-01-01 00:00:00", A, 15.0, 5.0, 59.0) |
| `Transformer.EndToEndBatchExample` | katas4.py:18-46 | that row as a one-row batch with all five columns transforms to that clean row under the table's columns |
| `Transformer.SentinelRowExample` | katas4.py:36-44 | a row with TMP `"9999,9"` is kept, with temp_c and temp_f absent |
| `Transformer.MissingStationExample` | katas4.py:25 | a row with a missing station is dropped |
| `Loader.KeyOf` | katas4.py:57 | a clean row's primary key, (STATION, DATE) |
| `Loader.WithStation` | katas4.py:57-63 | the batch rows that have a STATION, in order: those SQLite keys (properties in `StationMembers`, `WithStationAppend`) |
| `Loader.WithoutStation` | katas4.py:57-63 | the batch rows whose STATION is NULL, in order: those SQLite inserts without replacing anything (properties in `StationMembers`, `WithoutStationAppend`) |
| `Loader.UpsertAll` | katas4.py:63 | the table after inserting or replacing the rows, first to last, each under its (STATION, DATE) key (properties in `UpsertAllAt` and the lemmas below) |
| `Loader.StationMembers` | katas4.py:57-63 | the keyed rows of a batch are exactly its rows with a STATION, and the NULL-keyed rows exactly those without |
| `Loader.StationPartition` | katas4.py:57-63 | every batch row is either keyed or NULL-keyed: the two counts add up to the batch's size |
| `Loader.WithStationAppend` | katas4.py:63 | selecting the keyed rows works row by row and keeps their order |
| `Loader.WithoutStationAppend` | katas4.py:63 | selecting the NULL-keyed rows works row by row and keeps their order |
| `Loader.AllStationed` | katas4.py:57 | a batch whose rows all have a STATION is keyed in full, with no NULL-keyed rows |
| `Loader.LoadStep` | katas4.py:63 | loading one more batch row upserts it when it has a STATION and appends it to the NULL-keyed rows otherwise |
| `Loader.TransformedRowsKeyed` | katas4.py:25 | a transformed batch has no row with a NULL STATION, so loading it is the keyed upsert alone |
| `Loader.LastWithKey` | katas4.py:63 | the last batch row with a key is a batch row with that key, and there is none exactly when no batch row has the key |
| `Loader.UpsertAllAt` | katas4.py:57-63 | after an upsert, each key holds the batch's last row with that key, or else its old row, and no other key is present |
| `Loader.UpsertIdempotent` | katas4.py:63 | upserting the same keyed rows twice gives the same table as upserting them once |
| `Loader.UpsertLastWins` | katas4.py:57-63 | a batch row that no later batch row shares a key with is what the table holds under that key |
| `Loader.UpsertUntouched` | katas4.py:63 | keys that no batch row has keep their old row, or stay absent |
| `Loader.UpsertKeys` | katas4.py:57 | the keys after an upsert are the old keys plus the batch's keys: a replaced row is not duplicated |
| `Loader.UpsertSequential` | katas4.py:63 | loading two batches one after the other is loading their concatenation |
| `Loader.UpsertKeepsKeyed` | katas4.py:57 | every stored row stays under its own (STATION, DATE) key |
| `Loader.WeatherStore.constructor` | katas4.py:53-59 | a new database has an empty table keyed on (STATION, DATE) and no NULL-keyed rows |
| `Loader.WeatherStore.Load` | katas4.py:48-67 | the load succeeds exactly when the batch has the table's column count; on success the keyed table becomes the upsert of its old contents with the batch rows that have a STATION, in order, and the rows without one are appended to the NULL-keyed rows; on failure nothing changes; every stored key has a STATION and sits under its own row |
| `Loader.LoadTwice` | katas4.py:57-63 | loading the same batch twice leaves the keyed table as one load does, but stores the NULL-STATION rows twice |
| `Loader.ReloadTransformed` | katas4.py:81-82 | loading a transformed batch a second time changes nothing: the table is the one-load upsert and no NULL-keyed row is added |
| `Loader.TransformedBatchLoads` | katas4.py:21-22 | a transformed batch has the table's column count exactly when the raw batch had a NAME column |
| `Loader.EndToEndLoadExample` | katas4.py:18-63 | the one-row example batch, transformed and then upserted into an empty table, leaves exactly its clean row under the key (001, "2023-01-01 00:00:00") |

## Left out

- `extract` (katas4.py:12-15): CSV reading and chunking through `pd.read_csv` is file I/O and a library call. A raw batch is an input value here.
- `generate_report` (katas4.py:69-79): the SQL `COUNT`/`AVG`/`GROUP BY` read-back, `:.2f` formatting, `to_markdown` and file writing.
- The top-level loop over batches (katas4.py:82-85), which is fixed file names and plumbing. `UpsertSequential` states what loading batch after batch amounts to.
- Loader.WeatherStore.Load: a six-column batch whose columns are not in the table's order (STATION, DATE, NAME, temp_c, dew_point_c, temp_f) is stored as if they were. SQLite's `SELECT *` inserts by position, so those values would land under the wrong columns, converted by SQLite's type affinity; a typed `CleanRow` cannot hold that. `transform` only produces the table's order (`OutputColumns`).
- SQLite mechanics: the connection, `CREATE TABLE`, the staging table, `DROP TABLE`, commit and close. Only the keyed insert-or-replace effect and the column-count failure are modelled. The model assumes SQLite hands the staging rows back in insertion order. SQLite's TEXT affinity is not modelled, so a `Number` station and the `Text` holding the same digits are different keys here.
- The date grammar of `pd.to_datetime(..., errors='coerce')` and `strftime` is a library that is not part of this model. It is an abstract per-cell function parameter. pandas can also infer one format for a whole column from its first value; that cross-row dependence is not modelled.
- `DecodeTenths`/`ParseSigned` accept only an optional sign followed by decimal digits. Python's `float()` also takes surrounding whitespace, a fraction, an exponent, underscores, non-ASCII Unicode decimal digits, `inf` and `nan`. For example `"nan,1"` yields NaN in the code, not None.
- IEEE rounding of `float()`, `/10.0` and `* 9/5 + 32`: readings are integer tenths and degrees are exact reals. `ParseSigned` is exact, whereas Python's `float()` rounds a digit string above 2^53 to the nearest double and turns one above about 1.8e308 into `inf`. No four-digit NOAA reading is affected, and no digit string whose value is not 9999 rounds to 9999.
- pandas' NaN-versus-None coercion. When a column mixes readings with None, pandas stores NaN, and the Fahrenheit lambda then yields NaN rather than None. Either way the value is absent, which is what the model says.
