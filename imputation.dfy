/** `DataImputation`: single-column fills with the median, the mean or the mode.
    The class keeps the caller's DataFrame itself, not a copy, so every fill
    changes the caller's table. */
module Imputation {
  import opened Frames
  import opened Stats

  class DataImputation {
    var data: DataFrame

    /** Keeps a reference to the caller's frame; nothing is copied. */
    constructor (d: DataFrame)
      ensures data == d
    {
      data := d;
    }

    /** Fills the missing cells of a numeric column with its median. */
    method FillMedian(column: string) returns (outcome: Outcome)
      requires Valid(data.table)
      modifies data
      ensures Valid(data.table)
      ensures !Has(old(data.table), column) ==>
                outcome == Fail(ColumnNotFound(column)) && data.table == old(data.table)
      ensures Has(old(data.table), column) && Lookup(old(data.table), column).kind != Numeric ==>
                outcome == Fail(NotNumeric(column)) && data.table == old(data.table)
      ensures Has(old(data.table), column) && Lookup(old(data.table), column).kind == Numeric ==>
                outcome == Pass &&
                data.table == FillColumn(old(data.table), column, ColumnMedian(Lookup(old(data.table), column).cells))
    {
      if !Has(data.table, column) {
        return Fail(ColumnNotFound(column));
      }
      var col := Lookup(data.table, column);
      if col.kind != Numeric {
        return Fail(NotNumeric(column));
      }
      FillColumnEffect(data.table, column, ColumnMedian(col.cells));
      data.table := FillColumn(data.table, column, ColumnMedian(col.cells));
      outcome := Pass;
    }

    /** Fills the missing cells of a numeric column with its mean. */
    method FillMean(column: string) returns (outcome: Outcome)
      requires Valid(data.table)
      modifies data
      ensures Valid(data.table)
      ensures !Has(old(data.table), column) ==>
                outcome == Fail(ColumnNotFound(column)) && data.table == old(data.table)
      ensures Has(old(data.table), column) && Lookup(old(data.table), column).kind != Numeric ==>
                outcome == Fail(NotNumeric(column)) && data.table == old(data.table)
      ensures Has(old(data.table), column) && Lookup(old(data.table), column).kind == Numeric ==>
                outcome == Pass &&
                data.table == FillColumn(old(data.table), column, ColumnMean(Lookup(old(data.table), column).cells))
    {
      if !Has(data.table, column) {
        return Fail(ColumnNotFound(column));
      }
      var col := Lookup(data.table, column);
      if col.kind != Numeric {
        return Fail(NotNumeric(column));
      }
      FillColumnEffect(data.table, column, ColumnMean(col.cells));
      data.table := FillColumn(data.table, column, ColumnMean(col.cells));
      outcome := Pass;
    }

    /** Fills the missing cells of a column of any kind with its mode; a column
        with no present value has an empty mode series, and `mode()[0]` raises. */
    method FillMode(column: string) returns (outcome: Outcome)
      requires Valid(data.table)
      modifies data
      ensures Valid(data.table)
      ensures !Has(old(data.table), column) ==>
                outcome == Fail(ColumnNotFound(column)) && data.table == old(data.table)
      ensures Has(old(data.table), column) && Mode(Lookup(old(data.table), column).cells).None? ==>
                outcome == Fail(NoMode(column)) && data.table == old(data.table)
      ensures Has(old(data.table), column) && Mode(Lookup(old(data.table), column).cells).Some? ==>
                outcome == Pass &&
                data.table == FillColumn(old(data.table), column, Mode(Lookup(old(data.table), column).cells))
    {
      if !Has(data.table, column) {
        return Fail(ColumnNotFound(column));
      }
      var col := Lookup(data.table, column);
      var mode := Mode(col.cells);
      if mode.None? {
        return Fail(NoMode(column));
      }
      ModeFitsColumn(data.table, column);
      FillColumnEffect(data.table, column, mode);
      data.table := FillColumn(data.table, column, mode);
      outcome := Pass;
    }
  }

  /** A successful median or mean fill leaves no missing cell in a column that had
      a present value; a column with none stays as it was (the statistic is NaN). */
  lemma NumericFillCompletes(t: Table, column: string)
    requires Valid(t) && Has(t, column) && Lookup(t, column).kind == Numeric
    ensures (exists i :: 0 <= i < Rows(t) && Lookup(t, column).cells[i].Some?) ==>
              NoMissing(Lookup(FillColumn(t, column, ColumnMedian(Lookup(t, column).cells)), column).cells) &&
              NoMissing(Lookup(FillColumn(t, column, ColumnMean(Lookup(t, column).cells)), column).cells)
    ensures (forall i :: 0 <= i < Rows(t) ==> Lookup(t, column).cells[i].None?) ==>
              FillColumn(t, column, ColumnMedian(Lookup(t, column).cells)) == t &&
              FillColumn(t, column, ColumnMean(Lookup(t, column).cells)) == t
  {
    var cells := Lookup(t, column).cells;
    assert forall i :: 0 <= i < |cells| ==> NotText(cells[i]);
    NumericStatisticsExist(cells);
    FillColumnEffect(t, column, ColumnMedian(cells));
    FillColumnEffect(t, column, ColumnMean(cells));
    if ColumnMedian(cells).None? {
      FillColumnNoOp(t, column, ColumnMedian(cells));
    }
    if ColumnMean(cells).None? {
      FillColumnNoOp(t, column, ColumnMean(cells));
    }
  }

  /** A successful mode fill never leaves a missing cell. */
  lemma ModeFillCompletes(t: Table, column: string)
    requires Valid(t) && Has(t, column) && Mode(Lookup(t, column).cells).Some?
    ensures NoMissing(Lookup(FillColumn(t, column, Mode(Lookup(t, column).cells)), column).cells)
  {
    ModeFitsColumn(t, column);
    FillColumnEffect(t, column, Mode(Lookup(t, column).cells));
  }

  /** Filling a column a second time with the same statistic, recomputed on the
      filled column, changes nothing. */
  lemma RefillIsNoOp(t: Table, column: string, stat: seq<Cell> -> Option<Value>)
    requires Valid(t) && Has(t, column)
    requires NotText(stat(Lookup(t, column).cells)) || Lookup(t, column).kind == Categorical
    ensures var once := FillColumn(t, column, stat(Lookup(t, column).cells));
            FillColumn(once, column, stat(Lookup(once, column).cells)) == once
  {
    var v := stat(Lookup(t, column).cells);
    var once := FillColumn(t, column, v);
    FillColumnEffect(t, column, v);
    if v.None? {
      FillColumnNoOp(t, column, v);
    }
    FillColumnNoOp(once, column, stat(Lookup(once, column).cells));
  }

  /** The imputer works on the caller's frame: a mode fill shows in the caller's table. */
  method FillModeOnCallerFrame(d: DataFrame, column: string) returns (outcome: Outcome)
    requires Valid(d.table)
    modifies d
    ensures Has(old(d.table), column) && Mode(Lookup(old(d.table), column).cells).Some? ==>
              outcome == Pass && d.table == FillColumn(old(d.table), column, Mode(Lookup(old(d.table), column).cells))
    ensures !Has(old(d.table), column) ==> outcome.Fail? && d.table == old(d.table)
  {
    var imputer := new DataImputation(d);
    outcome := imputer.FillMode(column);
  }
}
