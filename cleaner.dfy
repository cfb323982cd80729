/** `DataCleaner`: drops columns by name or by their share of missing cells and
    imputes columns from a column-to-strategy map. The cleaner works on its own
    copy of the caller's DataFrame. */
module Cleaner {
  import opened Frames
  import opened Stats

  function MissingCount(cells: seq<Cell>): nat {
    if cells == [] then 0 else (if cells[0].None? then 1 else 0) + MissingCount(cells[1..])
  }

  /** The column's missing percentage `100 * missing / rows` is strictly above the
      threshold; for a table without rows pandas' percentage is NaN, which compares false. */
  predicate OverThreshold(c: Column, rows: nat, threshold: real) {
    rows > 0 && (100 * MissingCount(c.cells)) as real / rows as real > threshold
  }

  /** `cols_to_drop`: the names of the columns over the threshold, in column order. */
  function OverThresholdNames(cols: seq<Column>, rows: nat, threshold: real): (r: seq<string>)
    ensures forall n :: n in r ==> n in Names(cols)
  {
    if cols == [] then []
    else (if OverThreshold(cols[0], rows, threshold) then [cols[0].name] else []) + OverThresholdNames(cols[1..], rows, threshold)
  }

  function AsSet(names: seq<string>): set<string> {
    set n | n in names
  }

  /** The table `drop_na_columns(threshold)` leaves behind. */
  function DropNa(t: Table, threshold: real): Table {
    Table(Without(t.columns, AsSet(OverThresholdNames(t.columns, Rows(t), threshold))), t.index)
  }

  lemma {:induction false} OverThresholdNamesExact(cols: seq<Column>, rows: nat, threshold: real)
    requires Unique(Names(cols))
    ensures forall c :: c in cols ==> (c.name in OverThresholdNames(cols, rows, threshold) <==> OverThreshold(c, rows, threshold))
  {
    if cols != [] {
      var rest := cols[1..];
      assert Names(cols) == [cols[0].name] + Names(rest);
      assert Unique(Names(rest)) by {
        forall i, j | 0 <= i < j < |rest| ensures Names(rest)[i] != Names(rest)[j] {
          assert Names(cols)[i + 1] != Names(cols)[j + 1];
        }
      }
      assert cols[0].name !in Names(rest) by {
        forall j | 0 <= j < |rest| ensures Names(rest)[j] != cols[0].name {
          assert Names(cols)[0] != Names(cols)[j + 1];
        }
      }
      OverThresholdNamesExact(rest, rows, threshold);
      forall c | c in rest ensures c.name != cols[0].name {
        NameInNames(rest, c);
      }
    }
  }

  /** Dropping names no column carries leaves the columns as they are. */
  lemma {:induction false} WithoutAbsent(cols: seq<Column>, drop: set<string>)
    requires forall c :: c in cols ==> c.name !in drop
    ensures Without(cols, drop) == cols
  {
    if cols != [] {
      WithoutAbsent(cols[1..], drop);
    }
  }

  /** drop_na_columns keeps exactly the columns whose missing percentage is at most the
      threshold (a column exactly at it stays), in their order, with every row. */
  lemma DropNaKeepsExactly(t: Table, threshold: real)
    requires Valid(t)
    ensures var r := DropNa(t, threshold);
      && Valid(r) && r.index == t.index
      && IsSubsequence(r.columns, t.columns)
      && forall c :: c in r.columns <==> c in t.columns && !OverThreshold(c, Rows(t), threshold)
  {
    OverThresholdNamesExact(t.columns, Rows(t), threshold);
    WithoutValid(t, AsSet(OverThresholdNames(t.columns, Rows(t), threshold)));
    WithoutOrder(t.columns, AsSet(OverThresholdNames(t.columns, Rows(t), threshold)));
  }

  /** With no column over the threshold the table is unchanged; hence a second
      drop_na_columns with the same threshold changes nothing. */
  lemma DropNaIdempotent(t: Table, threshold: real)
    requires Valid(t)
    ensures (forall c :: c in t.columns ==> !OverThreshold(c, Rows(t), threshold)) ==> DropNa(t, threshold) == t
    ensures DropNa(DropNa(t, threshold), threshold) == DropNa(t, threshold)
  {
    var once := DropNa(t, threshold);
    DropNaKeepsExactly(t, threshold);
    if forall c :: c in t.columns ==> !OverThreshold(c, Rows(t), threshold) {
      NoneOverThreshold(t, threshold);
    }
    NoneOverThreshold(once, threshold);
  }

  lemma NoneOverThreshold(t: Table, threshold: real)
    requires Valid(t)
    requires forall c :: c in t.columns ==> !OverThreshold(c, Rows(t), threshold)
    ensures DropNa(t, threshold) == t
  {
    OverThresholdNamesExact(t.columns, Rows(t), threshold);
    WithoutAbsent(t.columns, AsSet(OverThresholdNames(t.columns, Rows(t), threshold)));
  }

  /** `existing_cols`: the listed names that are columns of the table, in list order. */
  function Existing(names: seq<string>, t: Table): (r: seq<string>)
    ensures forall n :: n in r <==> n in names && Has(t, n)
  {
    if names == [] then []
    else (if Has(t, names[0]) then [names[0]] else []) + Existing(names[1..], t)
  }

  /** drop_columns removes exactly the listed columns that exist, ignores the other
      names, and keeps the remaining columns in order and every row. */
  lemma DropColumnsExact(t: Table, names: seq<string>)
    requires Valid(t)
    ensures var r := Table(Without(t.columns, AsSet(Existing(names, t))), t.index);
      && Valid(r) && r.index == t.index
      && IsSubsequence(r.columns, t.columns)
      && (forall c :: c in r.columns <==> c in t.columns && c.name !in names)
      && (forall n :: n in Names(r.columns) <==> n in Names(t.columns) && n !in names)
  {
    var drop := AsSet(Existing(names, t));
    WithoutValid(t, drop);
    WithoutOrder(t.columns, drop);
    WithoutNames(t.columns, drop);
    forall c | c in t.columns ensures c.name in drop <==> c.name in names {
      NameInNames(t.columns, c);
    }
  }

  /** The value impute_values fills a column with (None for pandas' NaN), or the
      exception computing it raises: an unknown strategy, a mean or median of
      text, or the mode of a column with no present value. */
  function FillValue(c: Column, strategy: string): (r: Result<Option<Value>>)
    ensures r.Ok? ==> NotText(r.value) || c.kind == Categorical || Mode(c.cells) == r.value
  {
    if strategy == "mean" then
      if HasText(c.cells) then Err(NotAggregable(c.name)) else Ok(ColumnMean(c.cells))
    else if strategy == "median" then
      if HasText(c.cells) then Err(NotAggregable(c.name)) else Ok(ColumnMedian(c.cells))
    else if strategy == "mode" then
      if Mode(c.cells).None? then Err(NoMode(c.name)) else Ok(Mode(c.cells))
    else Err(UnknownStrategy(strategy))
  }

  /** One `(column, strategy)` entry: an absent column is skipped before the strategy is looked at. */
  function ImputeStep(t: Table, entry: (string, string)): (r: Result<Table>)
    requires Valid(t)
    ensures r.Ok? ==> Valid(r.value) && Names(r.value.columns) == Names(t.columns) && r.value.index == t.index
  {
    if !Has(t, entry.0) then Ok(t)
    else
      match FillValue(Lookup(t, entry.0), entry.1)
      case Err(e) => Err(e)
      case Ok(v) =>
        ModeFitsColumn(t, entry.0);
        FillColumnEffect(t, entry.0, v);
        Ok(FillColumn(t, entry.0, v))
  }

  datatype Run = Run(table: Table, error: Option<Error>)

  /** impute_values over the entries in the map's order: the table reached and the
      exception that stopped the loop, if any. */
  function ImputeRun(t: Table, entries: seq<(string, string)>): (r: Run)
    requires Valid(t)
    ensures Valid(r.table) && Names(r.table.columns) == Names(t.columns) && r.table.index == t.index
    decreases |entries|
  {
    if entries == [] then Run(t, None)
    else
      match ImputeStep(t, entries[0])
      case Err(e) => Run(t, Some(e))
      case Ok(next) => ImputeRun(next, entries[1..])
  }

  /** How many entries were imputed before the loop stopped. */
  function Completed(t: Table, entries: seq<(string, string)>): (k: nat)
    requires Valid(t)
    ensures k <= |entries|
    decreases |entries|
  {
    if entries == [] then 0
    else
      match ImputeStep(t, entries[0])
      case Err(_) => 0
      case Ok(next) => 1 + Completed(next, entries[1..])
  }

  /** When an entry raises, every earlier entry has already been imputed: the table
      left behind is that of a clean run over the entries before the failing one. */
  lemma {:induction false} ImputeRunStopsAtFailure(t: Table, entries: seq<(string, string)>)
    requires Valid(t)
    ensures var r := ImputeRun(t, entries); var k := Completed(t, entries);
      && ImputeRun(t, entries[..k]) == Run(r.table, None)
      && (r.error.Some? <==> k < |entries|)
      && (r.error.Some? ==> ImputeStep(r.table, entries[k]) == Err(r.error.value))
    decreases |entries|
  {
    if entries != [] {
      match ImputeStep(t, entries[0])
      case Err(e) => {
        assert entries[..0] == [];
      }
      case Ok(next) => {
        ImputeRunStopsAtFailure(next, entries[1..]);
        var k := Completed(next, entries[1..]);
        assert entries[..k + 1][0] == entries[0];
        assert entries[..k + 1][1..] == entries[1..][..k];
        if k < |entries[1..]| {
          assert entries[1..][k] == entries[k + 1];
        }
      }
    }
  }

  /** Which entries raise: an absent column is skipped whatever its strategy; on a
      present column an unknown strategy raises ValueError, "mean" or "median" of a
      column holding text raises TypeError, and "mode" of a column with no present
      value raises at `mode()[0]`. Every other entry succeeds. */
  lemma ImputeStepDispatch(t: Table, column: string, strategy: string)
    requires Valid(t)
    ensures !Has(t, column) ==> ImputeStep(t, (column, strategy)) == Ok(t)
    ensures Has(t, column) && strategy !in {"mean", "median", "mode"} ==>
              ImputeStep(t, (column, strategy)) == Err(UnknownStrategy(strategy))
    ensures Has(t, column) && (strategy == "mean" || strategy == "median") ==>
              (HasText(Lookup(t, column).cells) <==> ImputeStep(t, (column, strategy)) == Err(NotAggregable(column))) &&
              (!HasText(Lookup(t, column).cells) <==> ImputeStep(t, (column, strategy)).Ok?)
    ensures Has(t, column) && strategy == "mode" ==>
              ((forall i :: 0 <= i < Rows(t) ==> Lookup(t, column).cells[i].None?) <==>
                 ImputeStep(t, (column, strategy)) == Err(NoMode(column))) &&
              ((exists i :: 0 <= i < Rows(t) && Lookup(t, column).cells[i].Some?) <==>
                 ImputeStep(t, (column, strategy)).Ok?)
  {
    if Has(t, column) {
      var c := Lookup(t, column);
      assert c.name == column && |c.cells| == Rows(t);
    }
  }

  /** A successful entry on a present column keeps the other columns and the rows,
      keeps the column's present cells, writes the strategy's statistic of the
      column (its mean, its median, or its most frequent value) into every missing
      cell, and leaves no missing cell when the column had a present value. */
  lemma ImputeStepFills(t: Table, column: string, strategy: string)
    requires Valid(t) && Has(t, column) && ImputeStep(t, (column, strategy)).Ok?
    ensures var r := ImputeStep(t, (column, strategy)).value; var before := Lookup(t, column).cells;
      && (forall j :: 0 <= j < |t.columns| && t.columns[j].name != column ==> r.columns[j] == t.columns[j])
      && Has(r, column)
      && (forall i :: 0 <= i < Rows(t) && before[i].Some? ==> Lookup(r, column).cells[i] == before[i])
      && (strategy == "mean" ==> forall i :: 0 <= i < Rows(t) && before[i].None? ==> Lookup(r, column).cells[i] == ColumnMean(before))
      && (strategy == "median" ==> forall i :: 0 <= i < Rows(t) && before[i].None? ==> Lookup(r, column).cells[i] == ColumnMedian(before))
      && (strategy == "mode" ==> forall i :: 0 <= i < Rows(t) && before[i].None? ==> Lookup(r, column).cells[i] == Mode(before))
      && ((exists i :: 0 <= i < Rows(t) && before[i].Some?) ==> NoMissing(Lookup(r, column).cells))
  {
    var c := Lookup(t, column);
    var v := FillValue(c, strategy).value;
    ModeFitsColumn(t, column);
    FillColumnEffect(t, column, v);
    if strategy == "mean" || strategy == "median" {
      assert forall i :: 0 <= i < |c.cells| ==> NotText(c.cells[i]);
      NumericStatisticsExist(c.cells);
    }
  }

  class DataCleaner {
    var data: DataFrame
    /** The frame the cleaner was built from; it is never the one the cleaner changes. */
    ghost var source: DataFrame

    ghost predicate Valid()
      reads this, data
    {
      data != source && Frames.Valid(data.table)
    }

    /** Takes a copy of the caller's table in a frame of its own. */
    constructor (d: DataFrame)
      requires Frames.Valid(d.table)
      ensures Valid() && source == d && fresh(data) && data.table == d.table
    {
      data := new DataFrame(d.table);
      source := d;
    }

    method DropNaColumns(threshold: real) returns (r: DataFrame)
      requires Valid()
      modifies data
      ensures Valid() && r == data
      ensures data.table == DropNa(old(data.table), threshold)
    {
      var colsToDrop := OverThresholdNames(data.table.columns, Rows(data.table), threshold);
      if |colsToDrop| > 0 {
        WithoutValid(data.table, AsSet(colsToDrop));
        data.table := Table(Without(data.table.columns, AsSet(colsToDrop)), data.table.index);
      } else {
        WithoutAbsent(data.table.columns, AsSet(colsToDrop));
      }
      r := data;
    }

    method DropColumns(columns: seq<string>) returns (r: DataFrame)
      requires Valid()
      modifies data
      ensures Valid() && r == data
      ensures data.table == Table(Without(old(data.table).columns, AsSet(Existing(columns, old(data.table)))), old(data.table).index)
    {
      var existingCols := Existing(columns, data.table);
      if |existingCols| > 0 {
        WithoutValid(data.table, AsSet(existingCols));
        data.table := Table(Without(data.table.columns, AsSet(existingCols)), data.table.index);
      } else {
        WithoutAbsent(data.table.columns, AsSet(existingCols));
      }
      r := data;
    }

    /** Imputes the entries in order; the first exception stops the loop with the
        earlier entries already imputed. */
    method ImputeValues(columnsDict: seq<(string, string)>) returns (outcome: Outcome)
      requires Valid()
      modifies data
      ensures Valid()
      ensures data.table == ImputeRun(old(data.table), columnsDict).table
      ensures outcome == if ImputeRun(old(data.table), columnsDict).error.Some?
                         then Fail(ImputeRun(old(data.table), columnsDict).error.value) else Pass
    {
      var i := 0;
      while i < |columnsDict|
        invariant 0 <= i <= |columnsDict|
        invariant Valid()
        invariant ImputeRun(old(data.table), columnsDict) == ImputeRun(data.table, columnsDict[i..])
      {
        assert columnsDict[i..][0] == columnsDict[i] && columnsDict[i..][1..] == columnsDict[i + 1..];
        var (column, strategy) := columnsDict[i];
        if !Has(data.table, column) {
          // logged and skipped
          i := i + 1;
          continue;
        }
        var value := FillValue(Lookup(data.table, column), strategy);
        if value.Err? {
          return Fail(value.error);
        }
        ModeFitsColumn(data.table, column);
        FillColumnEffect(data.table, column, value.value);
        data.table := FillColumn(data.table, column, value.value);
        i := i + 1;
      }
      outcome := Pass;
    }

    method GetCleanedData() returns (r: DataFrame)
      requires Valid()
      ensures r == data && r != source
    {
      r := data;
    }
  }

  /** Whatever the cleaner does, the caller's frame keeps its table. */
  method CleanOnCopy(d: DataFrame, names: seq<string>, threshold: real, columnsDict: seq<(string, string)>)
    returns (cleaned: DataFrame, outcome: Outcome)
    requires Frames.Valid(d.table)
    ensures d.table == old(d.table) && cleaned != d
  {
    var cleaner := new DataCleaner(d);
    var _ := cleaner.DropColumns(names);
    var _ := cleaner.DropNaColumns(threshold);
    outcome := cleaner.ImputeValues(columnsDict);
    cleaned := cleaner.GetCleanedData();
  }
}
