/** `OutlierDetector`: flags rows of one column by a z-score rule, by an IQR rule,
    or by a fitted sklearn model, and removes them. `remove_outliers` re-binds
    `data` to the filtered copy, so removals accumulate over calls while the
    caller's frame stays as it was. */
module Outliers {
  import opened Frames
  import opened Stats

  // ---------------------------------------------------------------- z-score

  /** Sum of squared deviations from m. */
  function SquaredDeviations(xs: seq<real>, m: real): (s: real)
    ensures s >= 0.0
  {
    if xs == [] then 0.0
    else
      var d := xs[0] - m;
      assert d * d >= 0.0 by {
        if d < 0.0 {
          MulPos(-d, -d);
          assert (-d) * (-d) == d * d;
        } else {
          MulNonneg(d, d);
        }
      }
      d * d + SquaredDeviations(xs[1..], m)
  }

  /** `Series.std()` squared: the sample variance (ddof = 1) of at least two values. */
  function Variance(xs: seq<real>): (v: real)
    requires |xs| >= 2
    ensures v >= 0.0
  {
    SquaredDeviations(xs, Sum(xs) / |xs| as real) / (|xs| - 1) as real
  }

  /** One row against the rule with mean m and variance v > 0: a present value x is
      flagged when (x - m)^2 > t^2 v, and any present value is when t is negative. */
  predicate Beyond(c: Cell, m: real, v: real, t: real) {
    c.Some? && c.value.Num? && (t < 0.0 || (c.value.x - m) * (c.value.x - m) > t * t * v)
  }

  /** `z_scores > threshold` row by row. With fewer than two values the standard
      deviation is NaN, and with a zero one every z-score is NaN (0 / 0); NaN
      compares false, as does the NaN z-score of a missing cell. */
  function ZscoreFlags(cells: seq<Cell>, t: real): (flags: seq<bool>)
    ensures |flags| == |cells|
    ensures forall i :: 0 <= i < |cells| && flags[i] ==> cells[i].Some?
  {
    var xs := Numbers(cells);
    if |xs| < 2 || Variance(xs) == 0.0 then seq(|cells|, i => false)
    else seq(|cells|, i requires 0 <= i < |cells| => Beyond(cells[i], Sum(xs) / |xs| as real, Variance(xs), t))
  }

  function Abs(x: real): real { if x < 0.0 then -x else x }

  lemma MulPos(x: real, y: real)
    requires x > 0.0 && y > 0.0
    ensures x * y > 0.0
  {
  }

  lemma MulNonneg(x: real, y: real)
    requires x >= 0.0 && y >= 0.0
    ensures x * y >= 0.0
  {
    if x > 0.0 && y > 0.0 { MulPos(x, y); }
  }

  lemma SquareLess(a: real, b: real)
    requires 0.0 <= a < b
    ensures a * a < b * b
  {
    MulPos(b - a, b + a);
    assert (b - a) * (b + a) == b * b - a * a;
  }

  lemma SquaresOrdered(a: real, b: real)
    requires a >= 0.0 && b >= 0.0
    ensures a > b <==> a * a > b * b
  {
    if a > b { SquareLess(b, a); }
    else if a < b { SquareLess(a, b); }
  }

  lemma ScaleStrict(a: real, b: real, k: real)
    requires k > 0.0
    ensures a > b <==> a * k > b * k
  {
    if a > b {
      MulPos(a - b, k);
      assert (a - b) * k == a * k - b * k;
    } else {
      MulNonneg(b - a, k);
      assert (b - a) * k == b * k - a * k;
    }
  }

  lemma PositiveSquare(s: real, v: real)
    requires s > 0.0 && v == s * s
    ensures v > 0.0
  {
    MulPos(s, s);
    calc {
      v;
      s * s;
    >
      0.0;
    }
  }

  /** The rule without a square root: for s > 0 and v == s * s, the flag test on a
      deviation d agrees with |d| / s > t. */
  lemma BeyondIsZscore(d: real, t: real, s: real, v: real)
    requires s > 0.0 && v == s * s
    ensures (t < 0.0 || d * d > t * t * v) <==> Abs(d) / s > t
  {
    PositiveSquare(s, v);
    var z := Abs(d) / s;
    assert z * s == Abs(d);
    assert Abs(d) * Abs(d) == d * d;
    if t >= 0.0 {
      SquaresOrdered(z, t);
      ScaleStrict(z * z, t * t, v);
      assert (z * z) * v == (z * s) * (z * s);
    }
  }

  /** For a positive standard deviation s (s * s the sample variance), a row is
      flagged exactly when it holds a number x with |x - mean| / s > t. */
  lemma ZscoreRule(cells: seq<Cell>, t: real, s: real, i: nat)
    requires i < |cells| && |Numbers(cells)| >= 2
    requires s > 0.0 && s * s == Variance(Numbers(cells))
    ensures var m := Sum(Numbers(cells)) / |Numbers(cells)| as real;
      ZscoreFlags(cells, t)[i] <==> cells[i].Some? && cells[i].value.Num? && Abs(cells[i].value.x - m) / s > t
  {
    var xs := Numbers(cells);
    PositiveSquare(s, Variance(xs));
    ZscoreFlagAt(cells, t, i);
    BeyondRule(cells[i], Sum(xs) / |xs| as real, Variance(xs), s, t);
  }

  lemma BeyondRule(c: Cell, m: real, v: real, s: real, t: real)
    requires s > 0.0 && v == s * s
    ensures Beyond(c, m, v, t) <==> c.Some? && c.value.Num? && Abs(c.value.x - m) / s > t
  {
    if c.Some? && c.value.Num? {
      BeyondIsZscore(c.value.x - m, t, s, v);
    }
  }

  lemma ZscoreFlagAt(cells: seq<Cell>, t: real, i: nat)
    requires i < |cells| && |Numbers(cells)| >= 2 && Variance(Numbers(cells)) != 0.0
    ensures ZscoreFlags(cells, t)[i] == Beyond(cells[i], Sum(Numbers(cells)) / |Numbers(cells)| as real, Variance(Numbers(cells)), t)
  {
  }

  /** Nothing is flagged when the standard deviation is NaN or zero. */
  lemma ZscoreNoSpread(cells: seq<Cell>, t: real)
    requires |Numbers(cells)| < 2 || Variance(Numbers(cells)) == 0.0
    ensures forall i :: 0 <= i < |cells| ==> !ZscoreFlags(cells, t)[i]
  {
  }

  /** `detect_zscore_outliers`: the column's values in the flagged rows, in row
      order. An absent column raises KeyError, a non-numeric one ValueError. */
  function DetectZscore(t: Table, column: string, threshold: real): (r: Result<seq<Cell>>)
    ensures !Has(t, column) ==> r == Err(ColumnNotFound(column))
    ensures Has(t, column) && Lookup(t, column).kind != Numeric ==> r == Err(NotNumeric(column))
    ensures Has(t, column) && Lookup(t, column).kind == Numeric ==> r.Ok?
  {
    if !Has(t, column) then Err(ColumnNotFound(column))
    else if Lookup(t, column).kind != Numeric then Err(NotNumeric(column))
    else
      var cells := Lookup(t, column).cells;
      Ok(Pick(cells, Kept(ZscoreFlags(cells, threshold))))
  }

  /** The values returned are exactly the values of the flagged rows. */
  lemma DetectZscoreValues(t: Table, column: string, threshold: real)
    requires Has(t, column) && Lookup(t, column).kind == Numeric
    ensures var cells := Lookup(t, column).cells; var flags := ZscoreFlags(cells, threshold);
      forall c :: c in DetectZscore(t, column, threshold).value <==> exists i :: 0 <= i < |cells| && flags[i] && cells[i] == c
  {
    var cells := Lookup(t, column).cells;
    forall c {
      PickedValue(cells, ZscoreFlags(cells, threshold), c);
    }
  }

  /** A value is picked by a mask exactly when some row the mask keeps holds it. */
  lemma PickedValue<T>(s: seq<T>, flags: seq<bool>, v: T)
    requires |flags| == |s|
    ensures v in Pick(s, Kept(flags)) <==> exists j :: 0 <= j < |s| && flags[j] && s[j] == v
  {
    var p := Kept(flags);
    if v in Pick(s, p) {
      var k :| 0 <= k < |p| && Pick(s, p)[k] == v;
      assert flags[p[k]] && s[p[k]] == v;
    }
    if exists j :: 0 <= j < |s| && flags[j] && s[j] == v {
      var j :| 0 <= j < |s| && flags[j] && s[j] == v;
      var k :| 0 <= k < |p| && p[k] == j;
      assert Pick(s, p)[k] == v;
    }
  }

  // ---------------------------------------------------------------- masks

  /** `~s.isin(values)`, over a column's values or over the row labels: keep the rows
      whose entry is not among the given ones. */
  function NotIn<T(==)>(s: seq<T>, values: seq<T>): (keep: seq<bool>)
    ensures |keep| == |s|
    ensures forall i :: 0 <= i < |s| ==> (keep[i] <==> s[i] !in values)
  {
    seq(|s|, i requires 0 <= i < |s| => s[i] !in values)
  }

  function Not(flags: seq<bool>): (r: seq<bool>)
    ensures |r| == |flags| && forall i :: 0 <= i < |flags| ==> r[i] == !flags[i]
  {
    seq(|flags|, i requires 0 <= i < |flags| => !flags[i])
  }

  /** Removing by value drops every flagged row, and every other row that shares a
      flagged row's value. */
  lemma ValueRemoval(cells: seq<Cell>, flags: seq<bool>)
    requires |flags| == |cells|
    ensures var keep := NotIn(cells, Pick(cells, Kept(flags)));
      forall i :: 0 <= i < |cells| ==> (!keep[i] <==> exists j :: 0 <= j < |cells| && flags[j] && cells[j] == cells[i])
  {
    forall i | 0 <= i < |cells| {
      ValueRemovalAt(cells, flags, i);
    }
  }

  /** When the flags depend on the value alone, removing by value drops exactly the flagged rows. */
  lemma ValueRemovalExact(cells: seq<Cell>, flags: seq<bool>)
    requires |flags| == |cells|
    requires forall i, j :: 0 <= i < |cells| && 0 <= j < |cells| && cells[i] == cells[j] ==> flags[i] == flags[j]
    ensures NotIn(cells, Pick(cells, Kept(flags))) == Not(flags)
  {
    forall i | 0 <= i < |cells| {
      ValueRemovalExactAt(cells, flags, i);
    }
  }

  lemma ValueRemovalExactAt(cells: seq<Cell>, flags: seq<bool>, i: nat)
    requires |flags| == |cells| && i < |cells|
    requires forall j :: 0 <= j < |cells| && cells[i] == cells[j] ==> flags[i] == flags[j]
    ensures NotIn(cells, Pick(cells, Kept(flags)))[i] == !flags[i]
  {
    ValueRemovalAt(cells, flags, i);
  }

  lemma ValueRemovalAt(cells: seq<Cell>, flags: seq<bool>, i: nat)
    requires |flags| == |cells| && i < |cells|
    ensures !NotIn(cells, Pick(cells, Kept(flags)))[i] <==> exists j :: 0 <= j < |cells| && flags[j] && cells[j] == cells[i]
  {
    PickedValue(cells, flags, cells[i]);
  }

  /** Removing by label drops every flagged row; with unique labels it drops exactly those. */
  lemma IndexRemoval(index: seq<int>, flags: seq<bool>)
    requires |flags| == |index|
    ensures var keep := NotIn(index, Pick(index, Kept(flags)));
      && (forall i :: 0 <= i < |index| && flags[i] ==> !keep[i])
      && (Unique(index) ==> keep == Not(flags))
  {
    var keep := NotIn(index, Pick(index, Kept(flags)));
    forall i | 0 <= i < |index| ensures (flags[i] ==> !keep[i]) && (Unique(index) ==> keep[i] == !flags[i]) {
      IndexRemovalAt(index, flags, i);
    }
  }

  lemma IndexRemovalAt(index: seq<int>, flags: seq<bool>, i: nat)
    requires |flags| == |index| && i < |index|
    ensures var keep := NotIn(index, Pick(index, Kept(flags)));
      (flags[i] ==> !keep[i]) && (Unique(index) ==> keep[i] == !flags[i])
  {
    PickedValue(index, flags, index[i]);
    if Unique(index) && !NotIn(index, Pick(index, Kept(flags)))[i] {
      var j :| 0 <= j < |index| && flags[j] && index[j] == index[i];
      assert i == j;
    }
  }

  // ---------------------------------------------------------------- per-method masks

  /** `method == "zscore"`: the keep mask, or the detector's error. */
  function ZscoreKeep(t: Table, column: string, threshold: real): (r: Result<seq<bool>>)
    requires Valid(t)
    ensures r.Ok? ==> |r.value| == Rows(t)
  {
    match DetectZscore(t, column, threshold)
    case Err(e) => Err(e)
    case Ok(values) =>
      IndexOfUnique(t, IndexOf(t.columns, column));
      Ok(NotIn(Lookup(t, column).cells, values))
  }

  /** The z-score removal keeps exactly the rows the rule does not flag. */
  lemma ZscoreKeepsUnflagged(t: Table, column: string, threshold: real)
    requires Valid(t) && Has(t, column) && Lookup(t, column).kind == Numeric
    ensures ZscoreKeep(t, column, threshold) == Ok(Not(ZscoreFlags(Lookup(t, column).cells, threshold)))
  {
    var cells := Lookup(t, column).cells;
    ValueRemovalExact(cells, ZscoreFlags(cells, threshold));
  }

  /** The IQR detector as written: after the numeric check its body ends, so it
      returns None in place of the (lower, upper) pair. */
  function DetectIqrAsWritten(t: Table, column: string, threshold: real): (r: Result<Option<(seq<Cell>, seq<Cell>)>>)
    ensures !Has(t, column) ==> r == Err(ColumnNotFound(column))
    ensures Has(t, column) && Lookup(t, column).kind != Numeric ==> r == Err(NotNumeric(column))
    ensures r.Ok? ==> r.value.None?
  {
    if !Has(t, column) then Err(ColumnNotFound(column))
    else if Lookup(t, column).kind != Numeric then Err(NotNumeric(column))
    else Ok(None)
  }

  /** `method == "iqr"` as written: unpacking None raises TypeError. */
  function IqrKeepAsWritten(t: Table, column: string, threshold: real): Result<seq<bool>> {
    match DetectIqrAsWritten(t, column, threshold)
    case Err(e) => Err(e)
    case Ok(pair) => if pair.None? then Err(NotUnpackable) else Ok([])
  }

  /** As written, the IQR method removes nothing from any table: every call raises. */
  lemma {:induction false} IqrAsWrittenAlwaysRaises(t: Table, column: string, threshold: real)
    ensures IqrKeepAsWritten(t, column, threshold).Err?
    ensures Has(t, column) && Lookup(t, column).kind == Numeric ==>
              IqrKeepAsWritten(t, column, threshold) == Err(NotUnpackable)
  {
    var d := DetectIqrAsWritten(t, column, threshold);
    if d.Ok? {
      assert d.value.None?;
    }
  }

  /** A concrete case: a numeric column [1, 2, 3, 100], with the IQR rule's flags
      given as "only the last row lies above the upper fence". As written the call
      raises; with the detector returning the flagged values, the last row goes and
      the others stay. */
  lemma IqrCounterexample()
    ensures var t := Table([Column("price", Numeric, [Some(Num(1.0)), Some(Num(2.0)), Some(Num(3.0)), Some(Num(100.0))])], [0, 1, 2, 3]);
      var r := IqrKeep(t, "price", [false, false, false, false], [false, false, false, true]);
      && IqrKeepAsWritten(t, "price", 1.5) == Err(NotUnpackable)
      && r.Ok? && r.value == [true, true, true, false]
  {
    var t := Table([Column("price", Numeric, [Some(Num(1.0)), Some(Num(2.0)), Some(Num(3.0)), Some(Num(100.0))])], [0, 1, 2, 3]);
    var below := [false, false, false, false];
    var above := [false, false, false, true];
    assert Names(t.columns) == ["price"];
    assert Valid(t);
    IqrAsWrittenAlwaysRaises(t, "price", 1.5);
    IqrRemovesFlaggedValues(t, "price", below, above);
    var cells := Lookup(t, "price").cells;
    assert cells == t.columns[0].cells;
    var keep := IqrKeep(t, "price", below, above).value;
    forall i | 0 <= i < 4 ensures keep[i] == (i != 3) {
      if i != 3 {
        assert forall j :: 0 <= j < 4 && (below[j] || above[j]) ==> j == 3;
        assert cells[3] != cells[i];
      }
    }
  }

  /** The IQR detector with its rule supplied: the values of the rows below the lower
      fence and above the upper fence, given as per-row flags. */
  function DetectIqr(t: Table, column: string, below: seq<bool>, above: seq<bool>): (r: Result<(seq<Cell>, seq<Cell>)>)
    requires Valid(t) && |below| == Rows(t) && |above| == Rows(t)
    ensures !Has(t, column) ==> r == Err(ColumnNotFound(column))
    ensures Has(t, column) && Lookup(t, column).kind != Numeric ==> r == Err(NotNumeric(column))
    ensures Has(t, column) && Lookup(t, column).kind == Numeric ==> r.Ok?
  {
    if !Has(t, column) then Err(ColumnNotFound(column))
    else if Lookup(t, column).kind != Numeric then Err(NotNumeric(column))
    else
      var cells := Lookup(t, column).cells;
      IndexOfUnique(t, IndexOf(t.columns, column));
      Ok((Pick(cells, Kept(below)), Pick(cells, Kept(above))))
  }

  function Either(a: seq<bool>, b: seq<bool>): (r: seq<bool>)
    requires |a| == |b|
    ensures |r| == |a| && forall i :: 0 <= i < |a| ==> (r[i] <==> a[i] || b[i])
  {
    seq(|a|, i requires 0 <= i < |a| => a[i] || b[i])
  }

  /** `method == "iqr"`, corrected: remove the rows whose value is among the lower or upper outliers. */
  function IqrKeep(t: Table, column: string, below: seq<bool>, above: seq<bool>): (r: Result<seq<bool>>)
    requires Valid(t) && |below| == Rows(t) && |above| == Rows(t)
    ensures r.Ok? ==> |r.value| == Rows(t)
  {
    match DetectIqr(t, column, below, above)
    case Err(e) => Err(e)
    case Ok(pair) =>
      IndexOfUnique(t, IndexOf(t.columns, column));
      Ok(NotIn(Lookup(t, column).cells, pair.0 + pair.1))
  }

  /** The corrected IQR removal raises only for an absent or non-numeric column and
      otherwise drops exactly the rows holding a value some flagged row holds. */
  lemma IqrRemovesFlaggedValues(t: Table, column: string, below: seq<bool>, above: seq<bool>)
    requires Valid(t) && |below| == Rows(t) && |above| == Rows(t)
    ensures !Has(t, column) ==> IqrKeep(t, column, below, above) == Err(ColumnNotFound(column))
    ensures Has(t, column) && Lookup(t, column).kind != Numeric ==> IqrKeep(t, column, below, above) == Err(NotNumeric(column))
    ensures Has(t, column) && Lookup(t, column).kind == Numeric ==>
      var cells := Lookup(t, column).cells; var r := IqrKeep(t, column, below, above);
      && r.Ok?
      && forall i :: 0 <= i < Rows(t) ==>
           (!r.value[i] <==> exists j :: 0 <= j < Rows(t) && (below[j] || above[j]) && cells[j] == cells[i])
  {
    if Has(t, column) && Lookup(t, column).kind == Numeric {
      var cells := Lookup(t, column).cells;
      IndexOfUnique(t, IndexOf(t.columns, column));
      var both := Either(below, above);
      ValueRemoval(cells, both);
      var flagged := Pick(cells, Kept(below)) + Pick(cells, Kept(above));
      forall c ensures c in flagged <==> c in Pick(cells, Kept(both)) {
        PickedValue(cells, below, c);
        PickedValue(cells, above, c);
        PickedValue(cells, both, c);
      }
    }
  }

  /** sklearn's IsolationForest and EllipticEnvelope accept a contamination in (0, 0.5]. */
  predicate ContaminationOk(rate: real) { 0.0 < rate <= 0.5 }

  /** The first of the names that is not a column of t. */
  function Missing(t: Table, names: seq<string>): (r: Option<string>)
    ensures r.None? <==> forall k :: 0 <= k < |names| ==> Has(t, names[k])
    ensures r.Some? ==> r.value in names && !Has(t, r.value)
  {
    if names == [] then None
    else if !Has(t, names[0]) then Some(names[0])
    else
      var rest := Missing(t, names[1..]);
      assert forall k :: 1 <= k < |names| ==> names[k] == names[1..][k - 1];
      rest
  }

  /** `detect_isolation_forest_outliers` / `detect_robust_covariance_outliers`: the rows
      the fitted model predicts as -1 (`predicted`, the model left opaque). Selecting
      the columns raises KeyError before the model checks its contamination. */
  function DetectForeign(t: Table, columns: seq<string>, contamination: real, predicted: seq<bool>): (r: Result<Table>)
    requires Valid(t) && |predicted| == Rows(t)
    ensures (exists k :: 0 <= k < |columns| && !Has(t, columns[k])) ==> r.Err? && r.error.ColumnNotFound?
    ensures (forall k :: 0 <= k < |columns| ==> Has(t, columns[k])) ==>
              (r.Ok? <==> ContaminationOk(contamination)) &&
              (!ContaminationOk(contamination) ==> r == Err(InvalidContamination(contamination)))
    ensures r.Ok? ==> r.value == KeepRows(t, predicted)
  {
    var missing := Missing(t, columns);
    if missing.Some? then Err(ColumnNotFound(missing.value))
    else if !ContaminationOk(contamination) then Err(InvalidContamination(contamination))
    else Ok(KeepRows(t, predicted))
  }

  /** `method == "iforest"` or `"robust_cov"`: `threshold` is passed as the contamination
      rate, and rows go by index label. */
  function ForeignKeep(t: Table, column: string, threshold: real, predicted: seq<bool>): (r: Result<seq<bool>>)
    requires Valid(t) && |predicted| == Rows(t)
    ensures r.Ok? ==> |r.value| == Rows(t)
  {
    match DetectForeign(t, [column], threshold, predicted)
    case Err(e) => Err(e)
    case Ok(outliers) => Ok(NotIn(t.index, outliers.index))
  }

  /** The model-based removal raises for an absent column and for a contamination
      outside (0, 0.5]; otherwise it drops every predicted row, and with unique row
      labels only those. */
  lemma ForeignRemovesPredicted(t: Table, column: string, threshold: real, predicted: seq<bool>)
    requires Valid(t) && |predicted| == Rows(t)
    ensures !Has(t, column) ==> ForeignKeep(t, column, threshold, predicted) == Err(ColumnNotFound(column))
    ensures Has(t, column) && !ContaminationOk(threshold) ==>
              ForeignKeep(t, column, threshold, predicted) == Err(InvalidContamination(threshold))
    ensures Has(t, column) && ContaminationOk(threshold) ==>
      var r := ForeignKeep(t, column, threshold, predicted);
      && r.Ok?
      && (forall i :: 0 <= i < Rows(t) && predicted[i] ==> !r.value[i])
      && (Unique(t.index) ==> r.value == Not(predicted))
  {
    if !Has(t, column) {
      assert !Has(t, [column][0]);
    }
    if Has(t, column) && ContaminationOk(threshold) {
      IndexRemoval(t.index, predicted);
      assert KeepRows(t, predicted).index == Pick(t.index, Kept(predicted));
    }
  }

  /** Which rows `remove_outliers` keeps: None for an unknown method (no branch runs). */
  function RemovalMask(t: Table, column: string, methodName: string, threshold: real,
                       below: seq<bool>, above: seq<bool>, predicted: seq<bool>): (r: Option<Result<seq<bool>>>)
    requires Valid(t) && |below| == Rows(t) && |above| == Rows(t) && |predicted| == Rows(t)
    ensures r.None? <==> methodName !in {"iqr", "zscore", "iforest", "robust_cov"}
    ensures r.Some? && r.value.Ok? ==> |r.value.value| == Rows(t)
  {
    if methodName == "iqr" then Some(IqrKeep(t, column, below, above))
    else if methodName == "zscore" then Some(ZscoreKeep(t, column, threshold))
    else if methodName == "iforest" || methodName == "robust_cov" then Some(ForeignKeep(t, column, threshold, predicted))
    else None
  }

  /** The table after a removal: the kept rows, in their original order, with every
      column; it never has more rows than before. */
  lemma RemovalKeepsOrder(t: Table, keep: seq<bool>)
    requires Valid(t) && |keep| == Rows(t)
    ensures var r := KeepRows(t, keep);
      && Names(r.columns) == Names(t.columns)
      && Rows(r) <= Rows(t)
      && (forall j :: 0 <= j < Rows(r) ==> RowAt(r, j) == RowAt(t, Kept(keep)[j]))
      && (forall a, b :: 0 <= a < b < Rows(r) ==> Kept(keep)[a] < Kept(keep)[b])
      && (forall i :: 0 <= i < Rows(t) ==> (keep[i] <==> i in Kept(keep)))
  {
    KeepRowsRows(t, keep);
  }

  // ---------------------------------------------------------------- the class

  class OutlierDetector {
    var data: DataFrame

    /** Keeps the caller's frame. */
    constructor (d: DataFrame)
      ensures data == d
    {
      data := d;
    }

    /** `remove_outliers`: dispatch on the method name and re-bind `data` to the kept
        rows. The per-row results of the IQR rule (`below`, `above`) and of the
        sklearn model (`predicted`) are supplied from outside. */
    method RemoveOutliers(column: string, methodName: string, threshold: real,
                          below: seq<bool>, above: seq<bool>, predicted: seq<bool>) returns (r: Result<DataFrame>)
      requires Valid(data.table)
      requires |below| == Rows(data.table) && |above| == Rows(data.table) && |predicted| == Rows(data.table)
      modifies this
      ensures Valid(data.table) && old(data).table == old(data.table)
      ensures var mask := RemovalMask(old(data.table), column, methodName, threshold, below, above, predicted);
        match mask
        case None => data == old(data) && r == Ok(data)
        case Some(Err(e)) => data == old(data) && r == Err(e)
        case Some(Ok(keep)) => fresh(data) && data.table == KeepRows(old(data.table), keep) && r == Ok(data)
    {
      var t := data.table;
      var outcome: Result<seq<bool>>;
      if methodName == "iqr" {
        var detected := DetectIqr(t, column, below, above);
        if detected.Err? {
          return Err(detected.error);
        }
        IndexOfUnique(t, IndexOf(t.columns, column));
        outcome := Ok(NotIn(Lookup(t, column).cells, detected.value.0 + detected.value.1));
      } else if methodName == "zscore" {
        var outliers := DetectZscore(t, column, threshold);
        if outliers.Err? {
          return Err(outliers.error);
        }
        IndexOfUnique(t, IndexOf(t.columns, column));
        outcome := Ok(NotIn(Lookup(t, column).cells, outliers.value));
      } else if methodName == "iforest" || methodName == "robust_cov" {
        var outliers := DetectForeign(t, [column], threshold, predicted);
        if outliers.Err? {
          return Err(outliers.error);
        }
        outcome := Ok(NotIn(t.index, outliers.value.index));
      } else {
        return Ok(data);
      }
      data := new DataFrame(KeepRows(t, outcome.value));
      r := Ok(data);
    }
  }

  /** Removals accumulate: a second z-score removal runs on the rows the first one kept,
      and the caller's frame is never changed. */
  method RemoveZscoreTwice(d: DataFrame, column: string, first: real, second: real) returns (kept: Table)
    requires Valid(d.table) && Has(d.table, column) && Lookup(d.table, column).kind == Numeric
    ensures d.table == old(d.table)
    ensures var once := KeepRows(d.table, Not(ZscoreFlags(Lookup(d.table, column).cells, first)));
      && Has(once, column) && Lookup(once, column).kind == Numeric
      && kept == KeepRows(once, Not(ZscoreFlags(Lookup(once, column).cells, second)))
  {
    var n := Rows(d.table);
    var detector := new OutlierDetector(d);
    ZscoreKeepsUnflagged(d.table, column, first);
    var r1 := detector.RemoveOutliers(column, "zscore", first, seq(n, i => false), seq(n, i => false), seq(n, i => false));
    var once := detector.data.table;
    IndexOfUnique(d.table, IndexOf(d.table.columns, column));
    IndexOfUnique(once, IndexOf(d.table.columns, column));
    ZscoreKeepsUnflagged(once, column, second);
    var m := Rows(once);
    var r2 := detector.RemoveOutliers(column, "zscore", second, seq(m, i => false), seq(m, i => false), seq(m, i => false));
    kept := detector.data.table;
  }
}
