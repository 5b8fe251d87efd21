/** `transform`: one raw batch to one clean batch. The function follows the
    code's stages (projection, key filter, date normalisation, decoding,
    derived Fahrenheit, dropping the raw columns); `CleanAll` is the row-wise
    reference it is proved equal to. */
module Transformer {
  import opened Wrappers
  import opened Cells
  import opened NoaaValue

  /** The column names the transform knows: the five raw ones it projects
      onto and the three it adds. A raw batch's other columns are projected
      away and play no part. */
  datatype Column = STATION | DATE | NAME | TMP | DEW | TempC | DewPointC | TempF

  /** The raw columns the transform reads, in the order it projects them. */
  const Wanted: seq<Column> := [STATION, DATE, NAME, TMP, DEW]

  /** The key columns whose absence makes the key filter fail. */
  const KeyColumns: seq<Column> := [STATION, DATE]

  /** The columns the transform adds, in the order it adds them. */
  const Derived: seq<Column> := [TempC, DewPointC, TempF]

  /** The columns of the `hourly_weather` table, in declaration order. */
  const TableColumns: seq<Column> := [STATION, DATE, NAME, TempC, DewPointC, TempF]

  /** The relevant fields of one raw row; a field of a column the batch lacks
      is never read. */
  datatype RawRow = RawRow(station: Cell, date: Cell, name: Cell, tmp: Cell, dew: Cell)

  /** A batch as the extractor yields it: its column names and its rows. */
  datatype RawBatch = RawBatch(columns: set<Column>, rows: seq<RawRow>)

  /** A row whose date has been normalised to "YYYY-MM-DD HH:MM:SS". */
  datatype DatedRow = DatedRow(station: Cell, date: string, name: Cell, tmp: Cell, dew: Cell)

  /** One row of a clean batch; temperatures in exact degrees. */
  datatype CleanRow = CleanRow(
    station: Cell, date: string, name: Cell,
    tempC: Option<real>, dewPointC: Option<real>, tempF: Option<real>)

  datatype CleanBatch = CleanBatch(columns: seq<Column>, rows: seq<CleanRow>)

  /** pandas' `KeyError`, naming the columns it could not find. */
  datatype TransformError = MissingColumns(names: seq<Column>)

  /** The names of `names` that are in `present`, in order. */
  function Keep(names: seq<Column>, present: set<Column>): seq<Column>
  {
    if names == [] then []
    else (if names[0] in present then [names[0]] else []) + Keep(names[1..], present)
  }

  /** The names of `names` that are not in `gone`, in order. */
  function Drop(names: seq<Column>, gone: set<Column>): seq<Column>
  {
    if names == [] then []
    else (if names[0] in gone then [] else [names[0]]) + Drop(names[1..], gone)
  }

  lemma {:induction false} KeepMembers(names: seq<Column>, present: set<Column>)
    ensures forall c :: c in Keep(names, present) <==> c in names && c in present
  {
    if names != [] {
      KeepMembers(names[1..], present);
      assert names == [names[0]] + names[1..];
    }
  }

  lemma {:induction false} DropMembers(names: seq<Column>, gone: set<Column>)
    ensures forall c :: c in Drop(names, gone) <==> c in names && c !in gone
  {
    if names != [] {
      DropMembers(names[1..], gone);
      assert names == [names[0]] + names[1..];
    }
  }

  /** Projection onto the present columns: a batch without a NAME column
      carries no name. */
  function Project(rows: seq<RawRow>, hasName: bool): seq<RawRow> {
    if rows == [] then []
    else
      var r := rows[0];
      [if hasName then r else r.(name := Missing)] + Project(rows[1..], hasName)
  }

  /** `dropna(subset=['STATION', 'DATE'])`. */
  function DropMissingKeys(rows: seq<RawRow>): seq<RawRow> {
    if rows == [] then []
    else
      var r := rows[0];
      (if r.station == Missing || r.date == Missing then [] else [r]) + DropMissingKeys(rows[1..])
  }

  /** `to_datetime(..., errors='coerce').dt.strftime(...)` followed by
      `dropna(subset=['DATE'])`: the date parser is a parameter. */
  function NormalizeDates(rows: seq<RawRow>, parseDate: Cell -> Option<string>): seq<DatedRow> {
    if rows == [] then []
    else
      var r := rows[0];
      (match parseDate(r.date)
       case None => []
       case Some(d) => [DatedRow(r.station, d, r.name, r.tmp, r.dew)])
      + NormalizeDates(rows[1..], parseDate)
  }

  /** The `temp_c`, `dew_point_c` and `temp_f` columns, without the raw
      encoded ones. */
  function AddReadings(rows: seq<DatedRow>): seq<CleanRow> {
    if rows == [] then [] else [ReadRow(rows[0])] + AddReadings(rows[1..])
  }

  /** One row's `temp_c`, `dew_point_c` and `temp_f`, without TMP and DEW. */
  function ReadRow(r: DatedRow): CleanRow {
    var c := Celsius(r.tmp);
    CleanRow(r.station, r.date, r.name, c, Celsius(r.dew), Fahrenheit(c))
  }

  /** The columns of a clean batch: the projected columns with the derived
      ones appended and TMP and DEW dropped, which is the table's layout (less
      NAME when the raw batch has none). */
  function OutputColumns(present: set<Column>): (cols: seq<Column>)
    requires {STATION, DATE, TMP, DEW} <= present
    ensures cols == if NAME in present then TableColumns else [STATION, DATE, TempC, DewPointC, TempF]
  {
    ProjectedColumns(present);
    DroppedColumns(NAME in present);
    Drop(Keep(Wanted, present) + Derived, {TMP, DEW})
  }

  /** Keeping names distributes over concatenation. */
  lemma {:induction false} KeepAppend(a: seq<Column>, b: seq<Column>, present: set<Column>)
    ensures Keep(a + b, present) == Keep(a, present) + Keep(b, present)
  {
    if a != [] {
      assert (a + b)[1..] == a[1..] + b;
      KeepAppend(a[1..], b, present);
    } else {
      assert a + b == b;
    }
  }

  /** Dropping names distributes over concatenation. */
  lemma {:induction false} DropAppend(a: seq<Column>, b: seq<Column>, gone: set<Column>)
    ensures Drop(a + b, gone) == Drop(a, gone) + Drop(b, gone)
  {
    if a != [] {
      assert (a + b)[1..] == a[1..] + b;
      DropAppend(a[1..], b, gone);
    } else {
      assert a + b == b;
    }
  }

  lemma ProjectedColumns(present: set<Column>)
    requires {STATION, DATE, TMP, DEW} <= present
    ensures Keep(Wanted, present) == if NAME in present then [STATION, DATE, NAME, TMP, DEW] else [STATION, DATE, TMP, DEW]
  {
    assert Wanted == [STATION] + [DATE] + [NAME] + [TMP] + [DEW];
    KeepAppend([STATION] + [DATE] + [NAME] + [TMP], [DEW], present);
    KeepAppend([STATION] + [DATE] + [NAME], [TMP], present);
    KeepAppend([STATION] + [DATE], [NAME], present);
    KeepAppend([STATION], [DATE], present);
  }

  lemma DropDerived()
    ensures Drop(Derived, {TMP, DEW}) == Derived
  {
    DropAppend([TempC], [DewPointC, TempF], {TMP, DEW});
    DropAppend([DewPointC], [TempF], {TMP, DEW});
    assert [DewPointC, TempF] == [DewPointC] + [TempF];
    assert Derived == [TempC] + [DewPointC, TempF];
  }

  lemma DropReadings()
    ensures Drop([TMP, DEW], {TMP, DEW}) == []
  {
    DropAppend([TMP], [DEW], {TMP, DEW});
    assert [TMP, DEW] == [TMP] + [DEW];
  }

  lemma DropKeys(hasName: bool)
    ensures Drop(if hasName then [STATION, DATE, NAME] else [STATION, DATE], {TMP, DEW})
         == if hasName then [STATION, DATE, NAME] else [STATION, DATE]
  {
    DropAppend([STATION], [DATE], {TMP, DEW});
    assert [STATION, DATE] == [STATION] + [DATE];
    if hasName {
      DropAppend([STATION, DATE], [NAME], {TMP, DEW});
      assert [STATION, DATE, NAME] == [STATION, DATE] + [NAME];
    }
  }

  lemma DroppedColumns(hasName: bool)
    ensures Drop((if hasName then [STATION, DATE, NAME, TMP, DEW] else [STATION, DATE, TMP, DEW]) + Derived, {TMP, DEW})
         == if hasName then TableColumns else [STATION, DATE, TempC, DewPointC, TempF]
  {
    var keys := if hasName then [STATION, DATE, NAME] else [STATION, DATE];
    assert (if hasName then [STATION, DATE, NAME, TMP, DEW] else [STATION, DATE, TMP, DEW]) + Derived
        == keys + [TMP, DEW] + Derived;
    DropAppend(keys + [TMP, DEW], Derived, {TMP, DEW});
    DropAppend(keys, [TMP, DEW], {TMP, DEW});
    DropKeys(hasName);
    DropReadings();
    DropDerived();
  }

  /** The key columns absent from `present`, STATION before DATE. */
  lemma MissingKeyColumns(present: set<Column>)
    ensures Drop(KeyColumns, present)
         == (if STATION in present then [] else [STATION]) + (if DATE in present then [] else [DATE])
  {
    DropAppend([STATION], [DATE], present);
    assert KeyColumns == [STATION] + [DATE];
    assert [STATION][1..] == [] && [DATE][1..] == [];
  }

  /** `transform(chunk)`: fails with pandas' `KeyError` when a key column, TMP
      or DEW is absent, naming what the first failing step looks up: the
      absent key columns, else TMP, else DEW; otherwise a clean batch whose columns are the table's,
      less NAME when the raw batch has none. */
  function Transform(batch: RawBatch, parseDate: Cell -> Option<string>): (r: Result<CleanBatch, TransformError>)
    ensures r.Success? <==> {STATION, DATE, TMP, DEW} <= batch.columns
    ensures r.Failure? ==>
      && r.error.names != []
      && forall c :: c in r.error.names ==> c in {STATION, DATE, TMP, DEW} && c !in batch.columns
    ensures r.Success? ==>
      r.value.columns == if NAME in batch.columns then TableColumns else [STATION, DATE, TempC, DewPointC, TempF]
    ensures !({STATION, DATE} <= batch.columns) ==>
      r == Failure(MissingColumns((if STATION in batch.columns then [] else [STATION]) + (if DATE in batch.columns then [] else [DATE])))
    ensures {STATION, DATE} <= batch.columns && TMP !in batch.columns ==> r == Failure(MissingColumns([TMP]))
    ensures {STATION, DATE, TMP} <= batch.columns && DEW !in batch.columns ==> r == Failure(MissingColumns([DEW]))
  {
    var cols := Keep(Wanted, batch.columns);
    var missingKeys := Drop(KeyColumns, batch.columns);
    MissingKeyColumns(batch.columns);
    KeepMembers(Wanted, batch.columns);
    DropMembers(KeyColumns, batch.columns);
    if missingKeys != [] then
      assert missingKeys[0] in missingKeys;
      Failure(MissingColumns(missingKeys))
    else if TMP !in cols then Failure(MissingColumns([TMP]))
    else if DEW !in cols then Failure(MissingColumns([DEW]))
    else
      var rows := Project(batch.rows, NAME in cols);
      var dated := NormalizeDates(DropMissingKeys(rows), parseDate);
      Success(CleanBatch(OutputColumns(batch.columns), AddReadings(dated)))
  }

  /** The row-wise reference: what becomes of one raw row of a batch whose
      NAME column is present (`hasName`) or not. None means one of the
      filters drops it. */
  function CleanRowOf(r: RawRow, hasName: bool, parseDate: Cell -> Option<string>): Option<CleanRow> {
    if r.station == Missing || r.date == Missing then None
    else match parseDate(r.date)
      case None => None
      case Some(d) =>
        var c := Celsius(r.tmp);
        Some(CleanRow(r.station, d, if hasName then r.name else Missing, c, Celsius(r.dew), Fahrenheit(c)))
  }

  /** Every row through `CleanRowOf`, the dropped ones left out. */
  function CleanAll(rows: seq<RawRow>, hasName: bool, parseDate: Cell -> Option<string>): seq<CleanRow> {
    if rows == [] then []
    else
      (match CleanRowOf(rows[0], hasName, parseDate) case None => [] case Some(c) => [c])
      + CleanAll(rows[1..], hasName, parseDate)
  }

  /** A row the target table may hold: its station is present, and temp_f is
      present exactly when temp_c is, equal to temp_c * 9/5 + 32. */
  predicate WellFormed(c: CleanRow) {
    && c.station != Missing
    && (c.tempF.Some? <==> c.tempC.Some?)
    && (c.tempC.Some? ==> c.tempF.value == c.tempC.value * 9.0 / 5.0 + 32.0)
  }

  lemma {:induction false} DropMissingKeysAppend(a: seq<RawRow>, b: seq<RawRow>)
    ensures DropMissingKeys(a + b) == DropMissingKeys(a) + DropMissingKeys(b)
  {
    if a != [] {
      DropMissingKeysAppend(a[1..], b);
      assert (a + b)[1..] == a[1..] + b;
    } else {
      assert a + b == b;
    }
  }

  lemma {:induction false} NormalizeDatesAppend(a: seq<RawRow>, b: seq<RawRow>, parseDate: Cell -> Option<string>)
    ensures NormalizeDates(a + b, parseDate) == NormalizeDates(a, parseDate) + NormalizeDates(b, parseDate)
  {
    if a != [] {
      NormalizeDatesAppend(a[1..], b, parseDate);
      assert (a + b)[1..] == a[1..] + b;
    } else {
      assert a + b == b;
    }
  }

  lemma {:induction false} AddReadingsAppend(a: seq<DatedRow>, b: seq<DatedRow>)
    ensures AddReadings(a + b) == AddReadings(a) + AddReadings(b)
  {
    if a != [] {
      assert (a + b)[0] == a[0];
      assert (a + b)[1..] == a[1..] + b;
      calc {
        AddReadings(a + b);
        [ReadRow(a[0])] + AddReadings(a[1..] + b);
        { AddReadingsAppend(a[1..], b); }
        [ReadRow(a[0])] + (AddReadings(a[1..]) + AddReadings(b));
        ([ReadRow(a[0])] + AddReadings(a[1..])) + AddReadings(b);
      }
    } else {
      assert a + b == b;
    }
  }

  /** The code's column-at-a-time stages compute, row by row, what
      `CleanRowOf` says. */
  lemma {:induction false} StagesAreRowwise(rows: seq<RawRow>, hasName: bool, parseDate: Cell -> Option<string>)
    ensures AddReadings(NormalizeDates(DropMissingKeys(Project(rows, hasName)), parseDate))
         == CleanAll(rows, hasName, parseDate)
  {
    if rows != [] {
      StagesAreRowwise(rows[1..], hasName, parseDate);
      var r := rows[0];
      var p := if hasName then r else r.(name := Missing);
      assert Project(rows, hasName) == [p] + Project(rows[1..], hasName);
      DropMissingKeysAppend([p], Project(rows[1..], hasName));
      var kept := DropMissingKeys([p]);
      assert DropMissingKeys([p]) == if p.station == Missing || p.date == Missing then [] else [p] by {
        assert [p][1..] == [];
      }
      NormalizeDatesAppend(kept, DropMissingKeys(Project(rows[1..], hasName)), parseDate);
      var dated := NormalizeDates(kept, parseDate);
      AddReadingsAppend(dated, NormalizeDates(DropMissingKeys(Project(rows[1..], hasName)), parseDate));
      assert kept != [] ==> kept[1..] == [];
      if dated != [] {
        assert dated[1..] == [];
        assert AddReadings(dated) == [ReadRow(dated[0])];
      }
    }
  }

  /** `transform` computes, on success, the row-wise reference over the whole
      batch. */
  lemma TransformIsRowwise(batch: RawBatch, parseDate: Cell -> Option<string>)
    requires Transform(batch, parseDate).Success?
    ensures Transform(batch, parseDate).value.rows == CleanAll(batch.rows, NAME in batch.columns, parseDate)
  {
    KeepMembers(Wanted, batch.columns);
    StagesAreRowwise(batch.rows, NAME in batch.columns, parseDate);
  }

  /** Rows are cleaned independently and in order: the result for two
      consecutive stretches of rows is the two results one after the other.
      So survivors keep their relative order. */
  lemma {:induction false} CleanAllAppend(a: seq<RawRow>, b: seq<RawRow>, hasName: bool, parseDate: Cell -> Option<string>)
    ensures CleanAll(a + b, hasName, parseDate) == CleanAll(a, hasName, parseDate) + CleanAll(b, hasName, parseDate)
  {
    if a != [] {
      assert (a + b)[0] == a[0];
      assert (a + b)[1..] == a[1..] + b;
      CleanAllAppend(a[1..], b, hasName, parseDate);
    } else {
      assert a + b == b;
    }
  }

  /** A row missing its station or its date, or whose date does not parse,
      leaves no trace: the batch cleans as if it were not there. */
  lemma DroppedRowVanishes(a: seq<RawRow>, r: RawRow, b: seq<RawRow>, hasName: bool, parseDate: Cell -> Option<string>)
    requires r.station == Missing || r.date == Missing || parseDate(r.date).None?
    ensures CleanAll(a + [r] + b, hasName, parseDate) == CleanAll(a, hasName, parseDate) + CleanAll(b, hasName, parseDate)
  {
    CleanAllAppend(a + [r], b, hasName, parseDate);
    CleanAllAppend(a, [r], hasName, parseDate);
    assert [r][1..] == [];
  }

  /** No row is added: there are at most as many clean rows as raw ones. */
  lemma {:induction false} CleanAllNoLonger(rows: seq<RawRow>, hasName: bool, parseDate: Cell -> Option<string>)
    ensures |CleanAll(rows, hasName, parseDate)| <= |rows|
  {
    if rows != [] {
      CleanAllNoLonger(rows[1..], hasName, parseDate);
    }
  }

  /** Every clean row comes from a raw row of the batch, and every raw row
      that survives the filters is there. */
  lemma {:induction false} CleanAllMembers(rows: seq<RawRow>, hasName: bool, parseDate: Cell -> Option<string>, c: CleanRow)
    ensures c in CleanAll(rows, hasName, parseDate) <==> exists r :: r in rows && CleanRowOf(r, hasName, parseDate) == Some(c)
  {
    if rows != [] {
      CleanAllMembers(rows[1..], hasName, parseDate, c);
      var head := match CleanRowOf(rows[0], hasName, parseDate) case None => [] case Some(x) => [x];
      assert CleanAll(rows, hasName, parseDate) == head + CleanAll(rows[1..], hasName, parseDate);
      if exists r :: r in rows && CleanRowOf(r, hasName, parseDate) == Some(c) {
        var r :| r in rows && CleanRowOf(r, hasName, parseDate) == Some(c);
        if r != rows[0] {
          assert r in rows[1..];
        }
      }
      assert forall r :: r in rows[1..] ==> r in rows;
    }
  }

  /** A row survives exactly when its station and date are present and its
      date parses; the survivor keeps its station, carries the parsed date,
      keeps its name only when the batch has a NAME column, and is well
      formed. */
  lemma RowFate(r: RawRow, hasName: bool, parseDate: Cell -> Option<string>)
    ensures CleanRowOf(r, hasName, parseDate).Some? <==> r.station != Missing && r.date != Missing && parseDate(r.date).Some?
    ensures CleanRowOf(r, hasName, parseDate).Some? ==>
      var c := CleanRowOf(r, hasName, parseDate).value;
      && WellFormed(c)
      && c.station == r.station
      && c.name == (if hasName then r.name else Missing)
      && Some(c.date) == parseDate(r.date)
      && c.tempC == Celsius(r.tmp)
      && c.dewPointC == Celsius(r.dew)
  {
  }

  /** Every row `transform` outputs is well formed and comes from a raw row
      with the same station whose date parsed to the row's date. */
  lemma TransformOutputValid(batch: RawBatch, parseDate: Cell -> Option<string>)
    requires Transform(batch, parseDate).Success?
    ensures forall c :: c in Transform(batch, parseDate).value.rows ==>
      && WellFormed(c)
      && exists r :: r in batch.rows && r.station == c.station && r.date != Missing && parseDate(r.date) == Some(c.date)
  {
    TransformIsRowwise(batch, parseDate);
    forall c | c in Transform(batch, parseDate).value.rows
      ensures WellFormed(c)
      ensures exists r :: r in batch.rows && r.station == c.station && r.date != Missing && parseDate(r.date) == Some(c.date)
    {
      CleanAllMembers(batch.rows, NAME in batch.columns, parseDate, c);
      var r :| r in batch.rows && CleanRowOf(r, NAME in batch.columns, parseDate) == Some(c);
      RowFate(r, NAME in batch.columns, parseDate);
    }
  }

  /** An end-to-end example row: readings decoded to degrees, temp_f
      derived, the date normalised by the date parser. */
  lemma EndToEndRowCleans(parseDate: Cell -> Option<string>)
    requires parseDate(Text("2023-01-01T00:00:00")) == Some("2023-01-01 00:00:00")
    ensures CleanRowOf(RawRow(Text("001"), Text("2023-01-01T00:00:00"), Text("A"), Text("+0150,5"), Text("+0050,5")), true, parseDate)
         == Some(CleanRow(Text("001"), "2023-01-01 00:00:00", Text("A"), Some(15.0), Some(5.0), Some(59.0)))
  {
    var r := RawRow(Text("001"), Text("2023-01-01T00:00:00"), Text("A"), Text("+0150,5"), Text("+0050,5"));
    ExampleTemperature();
    ExampleDewPoint();
    ExampleFahrenheit();
    assert CleanRowOf(r, true, parseDate) == Some(CleanRow(r.station, "2023-01-01 00:00:00", r.name, Some(15.0), Some(5.0), Some(59.0)));
  }

  lemma ExampleTemperature()
    ensures Celsius(Text("+0150,5")) == Some(15.0)
  {
    ReadingExample();
  }

  lemma ExampleDewPoint()
    ensures Celsius(Text("+0050,5")) == Some(5.0)
  {
    DewPointExample();
  }

  lemma ExampleFahrenheit()
    ensures Fahrenheit(Some(15.0)) == Some(59.0)
  {
  }

  /** The same row as a one-row batch with all five raw columns. */
  lemma EndToEndBatchExample(parseDate: Cell -> Option<string>)
    requires parseDate(Text("2023-01-01T00:00:00")) == Some("2023-01-01 00:00:00")
    ensures Transform(RawBatch({STATION, DATE, NAME, TMP, DEW},
                               [RawRow(Text("001"), Text("2023-01-01T00:00:00"), Text("A"), Text("+0150,5"), Text("+0050,5"))]),
                      parseDate)
         == Success(CleanBatch(TableColumns,
                               [CleanRow(Text("001"), "2023-01-01 00:00:00", Text("A"), Some(15.0), Some(5.0), Some(59.0))]))
  {
    var rows := [RawRow(Text("001"), Text("2023-01-01T00:00:00"), Text("A"), Text("+0150,5"), Text("+0050,5"))];
    var batch := RawBatch({STATION, DATE, NAME, TMP, DEW}, rows);
    var clean := CleanRow(Text("001"), "2023-01-01 00:00:00", Text("A"), Some(15.0), Some(5.0), Some(59.0));
    assert {STATION, DATE, TMP, DEW} <= batch.columns && NAME in batch.columns;
    var r := Transform(batch, parseDate);
    assert r.Success? && r.value.columns == TableColumns;
    ExampleCleanAll(parseDate);
    TransformIsRowwise(batch, parseDate);
    assert r.value.rows == [clean];
  }

  lemma ExampleCleanAll(parseDate: Cell -> Option<string>)
    requires parseDate(Text("2023-01-01T00:00:00")) == Some("2023-01-01 00:00:00")
    ensures CleanAll([RawRow(Text("001"), Text("2023-01-01T00:00:00"), Text("A"), Text("+0150,5"), Text("+0050,5"))], true, parseDate)
         == [CleanRow(Text("001"), "2023-01-01 00:00:00", Text("A"), Some(15.0), Some(5.0), Some(59.0))]
  {
    var rows := [RawRow(Text("001"), Text("2023-01-01T00:00:00"), Text("A"), Text("+0150,5"), Text("+0050,5"))];
    EndToEndRowCleans(parseDate);
    assert rows[1..] == [];
    assert CleanAll(rows[1..], true, parseDate) == [];
  }

  /** A sentinel temperature leaves temp_c and temp_f absent, and the row is
      still output. */
  lemma SentinelRowExample(parseDate: Cell -> Option<string>)
    requires parseDate(Text("2023-01-01T00:00:00")) == Some("2023-01-01 00:00:00")
    ensures CleanAll([RawRow(Text("001"), Text("2023-01-01T00:00:00"), Text("A"), Text("9999,9"), Text("+0050,5"))], true, parseDate)
         == [CleanRow(Text("001"), "2023-01-01 00:00:00", Text("A"), None, Some(5.0), None)]
  {
    SentinelExample();
    DewPointExample();
    assert [RawRow(Text("001"), Text("2023-01-01T00:00:00"), Text("A"), Text("9999,9"), Text("+0050,5"))][1..] == [];
  }

  /** A row with an empty (hence missing) station is dropped entirely. */
  lemma MissingStationExample(parseDate: Cell -> Option<string>)
    ensures CleanAll([RawRow(Missing, Text("2023-01-01T00:00:00"), Text("A"), Text("+0150,5"), Text("+0050,5"))], true, parseDate) == []
  {
    assert [RawRow(Missing, Text("2023-01-01T00:00:00"), Text("A"), Text("+0150,5"), Text("+0050,5"))][1..] == [];
  }
}
