/** `DataEncoder`: one-hot and label encoding of a column, and feature scaling,
    done in place on the caller's DataFrame, with a registry of the fitted
    encoders and scalers keyed by column name. The class is lenient: an absent
    column, an unknown method or an exception inside the fitting leaves the
    table as it was. */
module Encoder {
  import opened Frames
  import opened Stats

  // ---------------------------------------------------------------- categories

  /** The distinct cells of a column in first-seen order; a missing cell is a
      category of its own, as in sklearn's encoders. */
  function Categories(cells: seq<Cell>): (r: seq<Cell>)
    ensures Unique(r)
    ensures forall c :: c in r <==> c in cells
    decreases |cells|
  {
    if cells == [] then []
    else
      var init := cells[..|cells| - 1];
      var last := cells[|cells| - 1];
      var d := Categories(init);
      assert cells == init + [last];
      if last in d then d else d + [last]
  }

  function Position(cats: seq<Cell>, c: Cell): (k: nat)
    requires c in cats
    ensures k < |cats| && cats[k] == c
  {
    if cats[0] == c then 0 else 1 + Position(cats[1..], c)
  }

  function DigitChar(d: nat): char
    requires d < 10
  {
    "0123456789"[d]
  }

  function Digits(n: nat): string
    decreases n
  {
    if n < 10 then [DigitChar(n)] else Digits(n / 10) + [DigitChar(n % 10)]
  }

  function PadLeft(s: string, width: nat): string
    decreases width - |s|
  {
    if |s| >= width then s else PadLeft("0" + s, width)
  }

  function TrimZeros(s: string): string {
    if s != [] && s[|s| - 1] == '0' then TrimZeros(s[..|s| - 1]) else s
  }

  function UnsignedText(x: real): string
    requires x >= 0.0
  {
    var whole := x.Floor;
    var micros := ((x - whole as real) * 1000000.0).Floor;
    var fraction := if micros <= 0 then "0" else TrimZeros(PadLeft(Digits(micros), 6));
    Digits(whole) + "." + fraction
  }

  /** `str()` of a float, with at most six fractional digits. */
  function RealText(x: real): string {
    if x < 0.0 then "-" + UnsignedText(-x) else UnsignedText(x)
  }

  function CategoryText(c: Cell): string {
    match c
    case None => "nan"
    case Some(Text(s)) => s
    case Some(Num(x)) => RealText(x)
  }

  /** `get_feature_names_out([column])`: `<column>_<category>`. */
  function FeatureName(column: string, c: Cell): string {
    column + "_" + CategoryText(c)
  }

  // ---------------------------------------------------------------- one-hot

  /** The float indicator of one category over the rows. */
  function Indicator(cat: Cell, cells: seq<Cell>): (r: seq<Cell>)
    ensures |r| == |cells|
  {
    seq(|cells|, i requires 0 <= i < |cells| => Some(Num(if cells[i] == cat then 1.0 else 0.0)))
  }

  /** One indicator column per category, in category order. */
  function IndicatorColumns(column: string, cats: seq<Cell>, cells: seq<Cell>): (r: seq<Column>)
    ensures |r| == |cats|
  {
    seq(|cats|, j requires 0 <= j < |cats| => Column(FeatureName(column, cats[j]), Numeric, Indicator(cats[j], cells)))
  }

  /** sklearn's OneHotEncoder raises on an empty column and on one mixing text and numbers. */
  predicate OneHotFails(cells: seq<Cell>) {
    |cells| == 0 || (HasText(cells) && HasNum(cells))
  }

  /** The table after the original column is dropped and the indicators assigned one by one. */
  function OneHot(t: Table, column: string): Table
    requires Has(t, column)
  {
    var cells := Lookup(t, column).cells;
    AssignAll(Table(Without(t.columns, {column}), t.index), IndicatorColumns(column, Categories(cells), cells))
  }

  /** The number a cell adds to a row sum. */
  function NumAt(c: Column, i: nat): real {
    if i < |c.cells| && c.cells[i].Some? && c.cells[i].value.Num? then c.cells[i].value.x else 0.0
  }

  function RowTotal(cols: seq<Column>, i: nat): real {
    if cols == [] then 0.0 else NumAt(cols[0], i) + RowTotal(cols[1..], i)
  }

  lemma {:induction false} IndicatorTotal(column: string, cats: seq<Cell>, cells: seq<Cell>, i: nat)
    requires Unique(cats) && i < |cells|
    ensures RowTotal(IndicatorColumns(column, cats, cells), i) == if cells[i] in cats then 1.0 else 0.0
  {
    if cats != [] {
      var cols := IndicatorColumns(column, cats, cells);
      assert cols[1..] == IndicatorColumns(column, cats[1..], cells);
      assert Unique(cats[1..]) by {
        forall a, b | 0 <= a < b < |cats[1..]| ensures cats[1..][a] != cats[1..][b] {
          assert cats[a + 1] != cats[b + 1];
        }
      }
      IndicatorTotal(column, cats[1..], cells, i);
      assert cells[i] in cats <==> cells[i] == cats[0] || cells[i] in cats[1..];
      if cells[i] == cats[0] {
        assert cells[i] !in cats[1..] by {
          forall b | 0 <= b < |cats[1..]| ensures cats[1..][b] != cats[0] {
            assert cats[0] != cats[b + 1];
          }
        }
      }
    }
  }

  lemma IndicatorColumnsFit(column: string, cats: seq<Cell>, cells: seq<Cell>)
    ensures forall j :: 0 <= j < |cats| ==>
      var c := IndicatorColumns(column, cats, cells)[j];
      |c.cells| == |cells| && FitsKind(c) && c.name == FeatureName(column, cats[j])
  {
  }

  /** one_hot drops the original column and adds exactly one indicator column per
      distinct category (the names of the other columns stay). */
  lemma OneHotNames(t: Table, column: string)
    requires Valid(t) && Has(t, column)
    ensures var r := OneHot(t, column); var cats := Categories(Lookup(t, column).cells);
      && Valid(r) && r.index == t.index
      && !Has(r, column)
      && forall n :: n in Names(r.columns) <==>
           (n in Names(t.columns) && n != column) || (exists c :: c in cats && n == FeatureName(column, c))
  {
    var cells := Lookup(t, column).cells;
    var cats := Categories(cells);
    var encoded := IndicatorColumns(column, cats, cells);
    var dropped := Table(Without(t.columns, {column}), t.index);
    WithoutValid(t, {column});
    WithoutNames(t.columns, {column});
    IndicatorColumnsFit(column, cats, cells);
    AssignAllValid(dropped, encoded);
    IndicatorNames(column, cats, cells);
    FeatureNamesNew(column, cats);
  }

  /** The indicator columns carry exactly the feature names of the categories. */
  lemma IndicatorNames(column: string, cats: seq<Cell>, cells: seq<Cell>)
    ensures forall n :: n in Names(IndicatorColumns(column, cats, cells)) <==> exists c :: c in cats && n == FeatureName(column, c)
  {
    var encoded := IndicatorColumns(column, cats, cells);
    forall n ensures n in Names(encoded) <==> exists c :: c in cats && n == FeatureName(column, c) {
      if n in Names(encoded) {
        var j :| 0 <= j < |encoded| && Names(encoded)[j] == n;
        assert cats[j] in cats;
      }
      if exists c :: c in cats && n == FeatureName(column, c) {
        var c :| c in cats && n == FeatureName(column, c);
        var j :| 0 <= j < |cats| && cats[j] == c;
        assert Names(encoded)[j] == n;
      }
    }
  }

  /** A feature name is longer than the column name, so it never equals it. */
  lemma FeatureNamesNew(column: string, cats: seq<Cell>)
    ensures forall c :: c in cats ==> FeatureName(column, c) != column
  {
    forall c | c in cats ensures FeatureName(column, c) != column {
      assert |FeatureName(column, c)| > |column|;
    }
  }

  /** The indicator names are pairwise distinct and none is already taken. */
  predicate FreshFeatureNames(column: string, cats: seq<Cell>, taken: seq<string>) {
    && (forall a, b :: 0 <= a < b < |cats| ==> FeatureName(column, cats[a]) != FeatureName(column, cats[b]))
    && (forall c :: c in cats ==> FeatureName(column, c) !in taken)
  }

  /** Fresh feature names make the indicator columns' names distinct and new. */
  lemma FreshIndicators(column: string, cats: seq<Cell>, cells: seq<Cell>, taken: seq<string>)
    requires FreshFeatureNames(column, cats, taken)
    ensures Unique(Names(IndicatorColumns(column, cats, cells)))
    ensures forall j :: 0 <= j < |cats| ==> IndicatorColumns(column, cats, cells)[j].name !in taken
  {
    var encoded := IndicatorColumns(column, cats, cells);
    forall a, b | 0 <= a < b < |encoded| ensures Names(encoded)[a] != Names(encoded)[b] {
      assert encoded[a].name == FeatureName(column, cats[a]);
      assert encoded[b].name == FeatureName(column, cats[b]);
    }
    forall j | 0 <= j < |cats| ensures encoded[j].name !in taken {
      assert cats[j] in cats;
    }
  }

  /** When the feature names are distinct and new, one_hot keeps the other columns
      in order with all their values, appends the indicators at the end, and every
      row has indicators of 0 or 1 that sum to exactly 1. */
  lemma OneHotLayout(t: Table, column: string)
    requires Valid(t) && Has(t, column)
    requires FreshFeatureNames(column, Categories(Lookup(t, column).cells), Names(t.columns))
    ensures var cells := Lookup(t, column).cells; var cats := Categories(cells);
      var encoded := IndicatorColumns(column, cats, cells);
      && OneHot(t, column).columns == Without(t.columns, {column}) + encoded
      && IsSubsequence(Without(t.columns, {column}), t.columns)
      && (forall j, i :: 0 <= j < |encoded| && 0 <= i < |cells| ==>
            encoded[j].cells[i] == Some(Num(if cells[i] == cats[j] then 1.0 else 0.0)))
      && (forall i :: 0 <= i < Rows(t) ==> RowTotal(encoded, i) == 1.0)
  {
    var cells := Lookup(t, column).cells;
    var cats := Categories(cells);
    var encoded := IndicatorColumns(column, cats, cells);
    var dropped := Table(Without(t.columns, {column}), t.index);
    WithoutNames(t.columns, {column});
    WithoutOrder(t.columns, {column});
    FreshIndicators(column, cats, cells, Names(t.columns));
    forall j | 0 <= j < |encoded| ensures encoded[j].name !in Names(dropped.columns) {
      assert encoded[j].name !in Names(t.columns);
    }
    AssignAllAppends(dropped, encoded);
    IndexOfUnique(t, IndexOf(t.columns, column));
    forall i | 0 <= i < Rows(t) ensures RowTotal(encoded, i) == 1.0 {
      IndicatorTotal(column, cats, cells, i);
    }
  }

  // ---------------------------------------------------------------- label

  /** Each row's code: the position of its value among the categories. */
  function LabelCodes(cells: seq<Cell>): (r: seq<Cell>)
    ensures |r| == |cells|
  {
    var cats := Categories(cells);
    seq(|cells|, i requires 0 <= i < |cells| => Some(Num(Position(cats, cells[i]) as real)))
  }

  /** sklearn's LabelEncoder sorts the distinct values, setting missing ones apart as
      a last class; text beside numbers cannot be sorted. */
  predicate LabelFails(cells: seq<Cell>) {
    HasText(cells) && HasNum(cells)
  }

  /** The column replaced in place by its codes. */
  function Label(t: Table, column: string): Table
    requires Has(t, column)
  {
    Assign(t, Column(column, Numeric, LabelCodes(Lookup(t, column).cells)))
  }

  /** Codes are whole numbers in 0..k-1 for k distinct values, and two rows get the
      same code exactly when they hold the same value. */
  lemma LabelCodesSpec(cells: seq<Cell>)
    ensures var codes := LabelCodes(cells); var k := |Categories(cells)|;
      && (forall i :: 0 <= i < |cells| ==>
            codes[i].Some? && codes[i].value.Num? && 0.0 <= codes[i].value.x < k as real
            && codes[i].value.x == codes[i].value.x.Floor as real)
      && (forall i, j :: 0 <= i < |cells| && 0 <= j < |cells| ==> (codes[i] == codes[j] <==> cells[i] == cells[j]))
  {
    var cats := Categories(cells);
    var codes := LabelCodes(cells);
    forall i | 0 <= i < |cells| ensures codes[i].value.x == codes[i].value.x.Floor as real {
      var n := Position(cats, cells[i]);
      assert codes[i] == Some(Num(n as real));
      assert (n as real).Floor == n;
    }
    forall i, j | 0 <= i < |cells| && 0 <= j < |cells| ensures codes[i] == codes[j] <==> cells[i] == cells[j] {
      var a := Position(cats, cells[i]);
      var b := Position(cats, cells[j]);
      if codes[i] == codes[j] {
        assert a as real == b as real;
        assert a == b;
      }
    }
  }

  /** label replaces the column where it stands, as a numeric column, and changes
      no other column and no row. */
  lemma LabelInPlace(t: Table, column: string)
    requires Valid(t) && Has(t, column)
    ensures var r := Label(t, column);
      && Valid(r) && r.index == t.index && Names(r.columns) == Names(t.columns)
      && Lookup(r, column) == Column(column, Numeric, LabelCodes(Lookup(t, column).cells))
      && forall j :: 0 <= j < |t.columns| && t.columns[j].name != column ==> r.columns[j] == t.columns[j]
  {
    AssignInPlace(t, Column(column, Numeric, LabelCodes(Lookup(t, column).cells)));
  }

  // ---------------------------------------------------------------- scaling

  /** sklearn's scalers raise on an empty column and on text. */
  predicate ScaleFails(cells: seq<Cell>) {
    |cells| == 0 || HasText(cells)
  }

  /** Scaled cells: numbers exactly where the column had values, missing where it had none. */
  predicate ScaledShape(before: seq<Cell>, after: seq<Cell>) {
    |after| == |before| &&
    forall i :: 0 <= i < |before| ==> (after[i].None? <==> before[i].None?) && NotText(after[i])
  }

  /** One cell rescaled: a number x becomes (x - lo) / range; missing cells stay missing. */
  function ScaleCell(c: Cell, lo: real, range: real): Cell
    requires range > 0.0
  {
    if c.Some? && c.value.Num? then Some(Num((c.value.x - lo) / range)) else c
  }

  /** The span min-max scaling divides by: max - min, or 1 when every value is equal. */
  function Span(lo: real, hi: real): (range: real)
    ensures range > 0.0 || hi < lo
  {
    if hi - lo == 0.0 then 1.0 else hi - lo
  }

  function ScaleAll(cells: seq<Cell>, lo: real, range: real): (r: seq<Cell>)
    requires range > 0.0
    ensures |r| == |cells| && forall i :: 0 <= i < |cells| ==> r[i] == ScaleCell(cells[i], lo, range)
  {
    seq(|cells|, i requires 0 <= i < |cells| => ScaleCell(cells[i], lo, range))
  }

  /** MinMaxScaler over the present values: (x - min) / (max - min), a zero range counting as 1. */
  function MinMaxScaled(cells: seq<Cell>): (r: seq<Cell>)
    ensures |r| == |cells|
  {
    var xs := Numbers(cells);
    if xs == [] then cells else ScaleAll(cells, Min(xs), Span(Min(xs), Max(xs)))
  }

  /** A column without text holds numbers or missing cells only. */
  lemma NoTextCells(cells: seq<Cell>)
    requires !HasText(cells)
    ensures forall i :: 0 <= i < |cells| ==> NotText(cells[i])
  {
  }

  /** Min-max scaling keeps missing cells missing, maps every value into [0, 1],
      the smallest value to 0 and, when the values differ, the largest to 1. */
  lemma MinMaxUnitRange(cells: seq<Cell>)
    requires !HasText(cells)
    ensures var r := MinMaxScaled(cells);
      && ScaledShape(cells, r)
      && (forall i :: 0 <= i < |cells| && r[i].Some? ==> 0.0 <= r[i].value.x <= 1.0)
      && (Numbers(cells) != [] ==> forall i :: 0 <= i < |cells| && cells[i] == Some(Num(Min(Numbers(cells)))) ==> r[i] == Some(Num(0.0)))
      && (Numbers(cells) != [] && Min(Numbers(cells)) < Max(Numbers(cells)) ==>
            forall i :: 0 <= i < |cells| && cells[i] == Some(Num(Max(Numbers(cells)))) ==> r[i] == Some(Num(1.0)))
  {
    NoTextCells(cells);
    var xs := Numbers(cells);
    if xs != [] {
      forall i | 0 <= i < |cells| {
        MinMaxCell(cells, i);
      }
    }
  }

  lemma MinMaxCell(cells: seq<Cell>, i: nat)
    requires i < |cells| && NotText(cells[i]) && Numbers(cells) != []
    ensures var r := MinMaxScaled(cells); var lo := Min(Numbers(cells)); var hi := Max(Numbers(cells));
      && (r[i].None? <==> cells[i].None?) && NotText(r[i])
      && (r[i].Some? ==> 0.0 <= r[i].value.x <= 1.0)
      && (cells[i] == Some(Num(lo)) ==> r[i] == Some(Num(0.0)))
      && (lo < hi && cells[i] == Some(Num(hi)) ==> r[i] == Some(Num(1.0)))
  {
    var xs := Numbers(cells);
    var lo := Min(xs);
    var hi := Max(xs);
    if cells[i].Some? {
      assert Some(Num(cells[i].value.x)) in cells;
    }
    ScaleCellInRange(cells[i], lo, hi);
  }

  lemma ScaleCellInRange(c: Cell, lo: real, hi: real)
    requires NotText(c) && (c.Some? ==> lo <= c.value.x <= hi)
    requires lo <= hi
    ensures var r := ScaleCell(c, lo, Span(lo, hi));
      && (r.None? <==> c.None?) && NotText(r)
      && (r.Some? ==> 0.0 <= r.value.x <= 1.0)
      && (c == Some(Num(lo)) ==> r == Some(Num(0.0)))
      && (lo < hi && c == Some(Num(hi)) ==> r == Some(Num(1.0)))
  {
    if c.Some? {
      UnitFraction(c.value.x - lo, Span(lo, hi), hi - lo);
    }
  }

  lemma UnitFraction(d: real, range: real, span: real)
    requires 0.0 <= d <= span && range > 0.0 && (span == 0.0 || range == span)
    ensures 0.0 <= d / range <= 1.0
    ensures span > 0.0 && d == span ==> d / range == 1.0
  {
    if span == 0.0 {
      assert d == 0.0;
    } else {
      assert d / range * range == d;
    }
  }

  // ---------------------------------------------------------------- the class

  /** What the registry keeps: the categories an encoder learnt, or a scaler's kind and fitted bounds. */
  datatype FittedEncoder = OneHotEncoder(categories: seq<Cell>) | LabelEncoder(classes: seq<Cell>)

  datatype FittedScaler = StandardScaler | MinMaxScaler(bounds: Option<(real, real)>) | RobustScaler

  function MinMaxBounds(cells: seq<Cell>): Option<(real, real)> {
    var xs := Numbers(cells);
    if xs == [] then None else Some((Min(xs), Max(xs)))
  }

  class DataEncoder {
    var data: DataFrame
    var fittedEncoders: map<string, FittedEncoder>
    var fittedScalers: map<string, FittedScaler>

    /** Keeps the caller's frame; both registries start empty. */
    constructor (d: DataFrame)
      ensures data == d && fittedEncoders == map[] && fittedScalers == map[]
    {
      data := d;
      fittedEncoders := map[];
      fittedScalers := map[];
    }

    /** `for col in encoded.columns: df[col] = encoded[col]`: the indicator columns
        assigned one by one. */
    method AssignEach(encoded: seq<Column>)
      requires Valid(data.table)
      requires forall j :: 0 <= j < |encoded| ==> |encoded[j].cells| == Rows(data.table) && FitsKind(encoded[j])
      modifies data
      ensures data.table == AssignAll(old(data.table), encoded) && Valid(data.table)
    {
      ghost var start := data.table;
      var i := 0;
      while i < |encoded|
        invariant 0 <= i <= |encoded|
        invariant Valid(data.table) && data.table.index == start.index
        invariant data.table == AssignAll(start, encoded[..i])
      {
        AssignAllStep(start, encoded, i);
        AssignValid(data.table, encoded[i]);
        data.table := Assign(data.table, encoded[i]);
        i := i + 1;
      }
      assert encoded[..|encoded|] == encoded;
    }

    /** The one_hot table update: drop the column, then assign its indicator columns. */
    method ReplaceByIndicators(column: string)
      requires Valid(data.table) && Has(data.table, column)
      modifies data
      ensures data.table == OneHot(old(data.table), column) && Valid(data.table)
    {
      var cells := Lookup(data.table, column).cells;
      var cats := Categories(cells);
      var encoded := IndicatorColumns(column, cats, cells);
      IndicatorColumnsFit(column, cats, cells);
      IndexOfUnique(data.table, IndexOf(data.table.columns, column));
      WithoutValid(data.table, {column});
      data.table := Table(Without(data.table.columns, {column}), data.table.index);
      AssignEach(encoded);
    }

    method EncodeCategorical(column: string, methodName: string) returns (r: DataFrame)
      requires Valid(data.table)
      modifies this, data
      ensures data == old(data) && r == data && Valid(data.table) && fittedScalers == old(fittedScalers)
      ensures !Has(old(data.table), column) || (methodName != "one_hot" && methodName != "label") ==>
                data.table == old(data.table) && fittedEncoders == old(fittedEncoders)
      ensures Has(old(data.table), column) && methodName == "one_hot" ==>
                var cells := Lookup(old(data.table), column).cells;
                if OneHotFails(cells) then data.table == old(data.table) && fittedEncoders == old(fittedEncoders)
                else data.table == OneHot(old(data.table), column) &&
                     fittedEncoders == old(fittedEncoders)[column := OneHotEncoder(Categories(cells))]
      ensures Has(old(data.table), column) && methodName == "label" ==>
                var cells := Lookup(old(data.table), column).cells;
                if LabelFails(cells) then data.table == old(data.table) && fittedEncoders == old(fittedEncoders)
                else data.table == Label(old(data.table), column) &&
                     fittedEncoders == old(fittedEncoders)[column := LabelEncoder(Categories(cells))]
    {
      r := data;
      if !Has(data.table, column) {
        return;  // warning: column not found
      }
      var cells := Lookup(data.table, column).cells;
      if methodName == "one_hot" {
        if OneHotFails(cells) {
          return;  // the encoder's exception is caught and logged
        }
        ReplaceByIndicators(column);
        fittedEncoders := fittedEncoders[column := OneHotEncoder(Categories(cells))];
      } else if methodName == "label" {
        if LabelFails(cells) {
          return;  // the encoder's exception is caught and logged
        }
        LabelInPlace(data.table, column);
        data.table := Assign(data.table, Column(column, Numeric, LabelCodes(cells)));
        fittedEncoders := fittedEncoders[column := LabelEncoder(Categories(cells))];
      } else {
        // warning: unknown encoding method
      }
    }

    method ScaleFeatures(column: string, methodName: string) returns (r: DataFrame)
      requires Valid(data.table)
      modifies this, data
      ensures data == old(data) && r == data && Valid(data.table) && fittedEncoders == old(fittedEncoders)
      ensures !Has(old(data.table), column) || methodName !in {"standard", "minmax", "robust"}
              || ScaleFails(Lookup(old(data.table), column).cells) ==>
                data.table == old(data.table) && fittedScalers == old(fittedScalers)
      ensures Has(old(data.table), column) && methodName in {"standard", "minmax", "robust"}
              && !ScaleFails(Lookup(old(data.table), column).cells) ==>
                var before := Lookup(old(data.table), column);
                && data.table.index == old(data.table).index
                && Names(data.table.columns) == Names(old(data.table).columns)
                && (forall j :: 0 <= j < |old(data.table).columns| && old(data.table).columns[j].name != column ==>
                      data.table.columns[j] == old(data.table).columns[j])
                && Lookup(data.table, column).kind == Numeric
                && ScaledShape(before.cells, Lookup(data.table, column).cells)
                && column in fittedScalers && fittedScalers == old(fittedScalers)[column := fittedScalers[column]]
                && (methodName == "standard" ==> fittedScalers[column] == StandardScaler)
                && (methodName == "robust" ==> fittedScalers[column] == RobustScaler)
                && (methodName == "minmax" ==> fittedScalers[column] == MinMaxScaler(MinMaxBounds(before.cells))
                                               && Lookup(data.table, column).cells == MinMaxScaled(before.cells))
    {
      r := data;
      if !Has(data.table, column) {
        return;  // warning: column not found
      }
      var scaler: FittedScaler;
      if methodName == "standard" {
        scaler := StandardScaler;
      } else if methodName == "minmax" {
        scaler := MinMaxScaler(MinMaxBounds(Lookup(data.table, column).cells));
      } else if methodName == "robust" {
        scaler := RobustScaler;
      } else {
        return;  // warning: unknown scaling method
      }
      var cells := Lookup(data.table, column).cells;
      if ScaleFails(cells) {
        return;  // the scaler's exception is caught and logged
      }
      var scaled: seq<Cell>;
      if methodName == "minmax" {
        MinMaxUnitRange(cells);
        scaled := MinMaxScaled(cells);
      } else {
        // standard and robust scaling arithmetic is left abstract
        assert ScaledShape(cells, cells);
        scaled :| ScaledShape(cells, scaled);
      }
      assert ScaledShape(cells, scaled);
      assert FitsKind(Column(column, Numeric, scaled));
      AssignInPlace(data.table, Column(column, Numeric, scaled));
      data.table := Assign(data.table, Column(column, Numeric, scaled));
      fittedScalers := fittedScalers[column := scaler];
    }
  }
}
