/** The tabular dataset every preprocessing class works on: a pandas DataFrame
    reduced to uniquely named, typed columns over one row index, plus the
    table primitives the classes rely on (drop columns, assign a column,
    fill missing cells, keep rows by a mask). */
module Frames {

  datatype Option<T> = None | Some(value: T)

  /** A non-missing cell value; numbers are idealised as reals. */
  datatype Value = Num(x: real) | Text(s: string)

  /** A cell; None is pandas' missing marker (NaN or None). */
  type Cell = Option<Value>

  /** What `pd.api.types.is_numeric_dtype` says of a column. */
  datatype Kind = Numeric | Categorical

  datatype Column = Column(name: string, kind: Kind, cells: seq<Cell>)

  /** Columns in insertion order and the row labels (the DataFrame index). */
  datatype Table = Table(columns: seq<Column>, index: seq<int>)

  /** The exceptions the preprocessing classes raise or let through. */
  datatype Error =
    | ColumnNotFound(column: string)          // ValueError / KeyError
    | NotNumeric(column: string)              // ValueError on a non-numeric column
    | UnknownStrategy(strategy: string)       // ValueError in impute_values
    | NotAggregable(column: string)           // pandas TypeError: mean/median of text
    | NoMode(column: string)                  // `mode()[0]` on an empty mode series
    | InvalidContamination(rate: real)        // sklearn parameter validation
    | NotUnpackable                           // unpacking the None a detector returned

  datatype Result<T> = Ok(value: T) | Err(error: Error)

  datatype Outcome = Pass | Fail(error: Error)

  function Rows(t: Table): nat { |t.index| }

  predicate NotText(c: Cell) { c.None? || c.value.Num? }

  predicate IsText(c: Cell) { c.Some? && c.value.Text? }

  predicate HasText(cells: seq<Cell>) {
    exists i :: 0 <= i < |cells| && IsText(cells[i])
  }

  predicate HasNum(cells: seq<Cell>) {
    exists i :: 0 <= i < |cells| && cells[i].Some? && cells[i].value.Num?
  }

  /** A numeric column holds numbers or missing cells only. */
  predicate FitsKind(c: Column) {
    c.kind == Numeric ==> forall k :: 0 <= k < |c.cells| ==> NotText(c.cells[k])
  }

  predicate Unique<T(==)>(s: seq<T>) {
    forall i, j :: 0 <= i < j < |s| ==> s[i] != s[j]
  }

  function Names(cols: seq<Column>): (r: seq<string>)
    ensures |r| == |cols|
    ensures forall j :: 0 <= j < |cols| ==> r[j] == cols[j].name
  {
    if cols == [] then [] else [cols[0].name] + Names(cols[1..])
  }

  /** Every column spans all rows, fits its kind, and names are unique. */
  predicate Valid(t: Table) {
    && (forall j :: 0 <= j < |t.columns| ==> |t.columns[j].cells| == |t.index| && FitsKind(t.columns[j]))
    && Unique(Names(t.columns))
  }

  predicate Has(t: Table, name: string) { name in Names(t.columns) }

  function IndexOf(cols: seq<Column>, name: string): (j: nat)
    requires name in Names(cols)
    ensures j < |cols| && cols[j].name == name
    ensures forall k :: 0 <= k < j ==> cols[k].name != name
  {
    if cols[0].name == name then 0 else 1 + IndexOf(cols[1..], name)
  }

  /** In a valid table the column carrying a name sits at exactly one position. */
  lemma IndexOfUnique(t: Table, j: nat)
    requires Valid(t) && j < |t.columns|
    ensures Has(t, t.columns[j].name) && IndexOf(t.columns, t.columns[j].name) == j
  {
    var n := Names(t.columns);
    assert n[j] == t.columns[j].name;
    var k := IndexOf(t.columns, t.columns[j].name);
    assert n[k] == t.columns[k].name;
  }

  function Lookup(t: Table, name: string): Column
    requires Has(t, name)
  {
    t.columns[IndexOf(t.columns, name)]
  }

  lemma NameInNames(cols: seq<Column>, c: Column)
    requires c in cols
    ensures c.name in Names(cols)
  {
    var j :| 0 <= j < |cols| && cols[j] == c;
    assert Names(cols)[j] == c.name;
  }

  // ---------------------------------------------------------------- columns

  /** `DataFrame.drop(columns=...)`: the columns whose name is not dropped, in order. */
  function Without(cols: seq<Column>, drop: set<string>): (r: seq<Column>)
    ensures forall c :: c in r <==> c in cols && c.name !in drop
    ensures |r| <= |cols|
  {
    if cols == [] then []
    else (if cols[0].name in drop then [] else [cols[0]]) + Without(cols[1..], drop)
  }

  predicate IsSubsequence<T(==)>(a: seq<T>, b: seq<T>)
    decreases |b|
  {
    a == [] || (b != [] && ((a[0] == b[0] && IsSubsequence(a[1..], b[1..])) || IsSubsequence(a, b[1..])))
  }

  lemma {:induction false} WithoutOrder(cols: seq<Column>, drop: set<string>)
    ensures IsSubsequence(Without(cols, drop), cols)
  {
    if cols != [] {
      WithoutOrder(cols[1..], drop);
      var rest := Without(cols[1..], drop);
      if cols[0].name !in drop {
        assert Without(cols, drop) == [cols[0]] + rest;
        assert ([cols[0]] + rest)[1..] == rest;
      } else {
        assert Without(cols, drop) == rest;
      }
    }
  }

  lemma {:induction false} WithoutNames(cols: seq<Column>, drop: set<string>)
    requires Unique(Names(cols))
    ensures Unique(Names(Without(cols, drop)))
    ensures forall n :: n in Names(Without(cols, drop)) <==> n in Names(cols) && n !in drop
  {
    if cols != [] {
      WithoutNames(cols[1..], drop);
      var rest := Without(cols[1..], drop);
      assert Names(cols) == [cols[0].name] + Names(cols[1..]);
      assert Unique(Names(cols[1..])) by {
        forall i, j | 0 <= i < j < |cols[1..]| ensures Names(cols[1..])[i] != Names(cols[1..])[j] {
          assert Names(cols)[i + 1] != Names(cols)[j + 1];
        }
      }
      assert cols[0].name !in Names(cols[1..]) by {
        forall j | 0 <= j < |cols[1..]| ensures Names(cols[1..])[j] != cols[0].name {
          assert Names(cols)[0] != Names(cols)[j + 1];
        }
      }
      if cols[0].name !in drop {
        assert Without(cols, drop) == [cols[0]] + rest;
        assert Names([cols[0]] + rest) == [cols[0].name] + Names(rest);
      } else {
        assert Without(cols, drop) == rest;
      }
    }
  }

  /** Dropping columns keeps a valid table valid. */
  lemma WithoutValid(t: Table, drop: set<string>)
    requires Valid(t)
    ensures Valid(Table(Without(t.columns, drop), t.index))
  {
    WithoutNames(t.columns, drop);
    var r := Without(t.columns, drop);
    forall j | 0 <= j < |r| ensures |r[j].cells| == |t.index| && FitsKind(r[j]) {
      assert r[j] in t.columns;
    }
  }

  /** `df[name] = values`: overwrite the column in place, or append it at the end. */
  function Assign(t: Table, c: Column): Table {
    if Has(t, c.name) then Table(t.columns[IndexOf(t.columns, c.name) := c], t.index)
    else Table(t.columns + [c], t.index)
  }

  lemma AssignValid(t: Table, c: Column)
    requires Valid(t) && |c.cells| == Rows(t) && FitsKind(c)
    ensures Valid(Assign(t, c))
    ensures Assign(t, c).index == t.index
    ensures forall n :: n in Names(Assign(t, c).columns) <==> n in Names(t.columns) || n == c.name
  {
    if Has(t, c.name) {
      AssignReplaces(t, c);
    } else {
      AssignAppends(t, c);
    }
  }

  lemma AssignReplaces(t: Table, c: Column)
    requires Valid(t) && |c.cells| == Rows(t) && FitsKind(c) && Has(t, c.name)
    ensures Valid(Assign(t, c)) && Names(Assign(t, c).columns) == Names(t.columns)
    ensures forall n :: n in Names(Assign(t, c).columns) <==> n in Names(t.columns)
  {
    var k := IndexOf(t.columns, c.name);
    var cols := t.columns[k := c];
    forall j | 0 <= j < |cols| ensures Names(cols)[j] == Names(t.columns)[j] {
    }
    assert Names(cols) == Names(t.columns);
    forall j | 0 <= j < |cols| ensures |cols[j].cells| == |t.index| && FitsKind(cols[j]) {
      if j != k {
        assert cols[j] == t.columns[j];
      }
    }
  }

  /** Assigning to an existing name replaces that column where it stands and changes
      no other column and no row. */
  lemma AssignInPlace(t: Table, c: Column)
    requires Valid(t) && |c.cells| == Rows(t) && FitsKind(c) && Has(t, c.name)
    ensures var r := Assign(t, c);
      && Valid(r) && r.index == t.index && Names(r.columns) == Names(t.columns)
      && Has(r, c.name) && Lookup(r, c.name) == c
      && forall j :: 0 <= j < |t.columns| && t.columns[j].name != c.name ==> r.columns[j] == t.columns[j]
  {
    var k := IndexOf(t.columns, c.name);
    AssignReplaces(t, c);
    IndexOfUnique(Assign(t, c), k);
  }

  lemma AssignAppends(t: Table, c: Column)
    requires Valid(t) && |c.cells| == Rows(t) && FitsKind(c) && !Has(t, c.name)
    ensures Valid(Assign(t, c))
    ensures forall n :: n in Names(Assign(t, c).columns) <==> n in Names(t.columns) || n == c.name
  {
    var cols := t.columns + [c];
    NamesSnoc(t.columns, c);
    forall j | 0 <= j < |cols| ensures |cols[j].cells| == |t.index| && FitsKind(cols[j]) {
      if j < |t.columns| {
        assert cols[j] == t.columns[j];
      }
    }
    forall i, j | 0 <= i < j < |cols| ensures Names(cols)[i] != Names(cols)[j] {
      if j == |t.columns| {
        assert Names(cols)[i] == Names(t.columns)[i];
      } else {
        assert Names(cols)[i] == Names(t.columns)[i] && Names(cols)[j] == Names(t.columns)[j];
      }
    }
  }

  /** Assigning the columns one after another, in order. */
  function AssignAll(t: Table, cs: seq<Column>): Table
    decreases |cs|
  {
    if cs == [] then t else Assign(AssignAll(t, cs[..|cs| - 1]), cs[|cs| - 1])
  }

  lemma {:induction false} AssignAllValid(t: Table, cs: seq<Column>)
    requires Valid(t)
    requires forall j :: 0 <= j < |cs| ==> |cs[j].cells| == Rows(t) && FitsKind(cs[j])
    ensures Valid(AssignAll(t, cs)) && AssignAll(t, cs).index == t.index
    ensures forall n :: n in Names(AssignAll(t, cs).columns) <==> n in Names(t.columns) || n in Names(cs)
  {
    if cs != [] {
      var init := cs[..|cs| - 1];
      var last := cs[|cs| - 1];
      forall j | 0 <= j < |init| ensures |init[j].cells| == Rows(t) && FitsKind(init[j]) {
        assert init[j] == cs[j];
      }
      AssignAllValid(t, init);
      AssignValid(AssignAll(t, init), last);
      assert init + [last] == cs;
      NamesSnoc(init, last);
    }
  }

  lemma NamesSnoc(cs: seq<Column>, c: Column)
    ensures Names(cs + [c]) == Names(cs) + [c.name]
  {
  }

  /** Assigning one more column is one more step of AssignAll. */
  lemma AssignAllStep(t: Table, cs: seq<Column>, i: nat)
    requires i < |cs|
    ensures AssignAll(t, cs[..i + 1]) == Assign(AssignAll(t, cs[..i]), cs[i])
  {
    assert cs[..i + 1][..i] == cs[..i];
  }

  /** Columns whose names are new and pairwise distinct are appended in order. */
  lemma {:induction false} AssignAllAppends(t: Table, cs: seq<Column>)
    requires Unique(Names(cs))
    requires forall j :: 0 <= j < |cs| ==> cs[j].name !in Names(t.columns)
    ensures AssignAll(t, cs) == Table(t.columns + cs, t.index)
  {
    if cs != [] {
      var init := cs[..|cs| - 1];
      var last := cs[|cs| - 1];
      assert Unique(Names(init)) by {
        forall i, j | 0 <= i < j < |init| ensures Names(init)[i] != Names(init)[j] {
          assert Names(cs)[i] != Names(cs)[j];
        }
      }
      forall j | 0 <= j < |init| ensures init[j].name !in Names(t.columns) {
        assert init[j] == cs[j];
      }
      AssignAllAppends(t, init);
      assert last.name !in Names(init) by {
        forall j | 0 <= j < |init| ensures Names(init)[j] != last.name {
          assert Names(cs)[j] != Names(cs)[|cs| - 1];
        }
      }
      NamesConcat(t.columns, init);
      var mid := Table(t.columns + init, t.index);
      assert !Has(mid, last.name);
      assert AssignAll(t, cs) == Assign(mid, last);
      assert Assign(mid, last) == Table(mid.columns + [last], t.index);
      AppendInit(t.columns, cs);
    }
  }

  lemma AppendInit<T>(a: seq<T>, cs: seq<T>)
    requires cs != []
    ensures (a + cs[..|cs| - 1]) + [cs[|cs| - 1]] == a + cs
  {
    assert cs == cs[..|cs| - 1] + [cs[|cs| - 1]];
  }

  lemma NamesConcat(a: seq<Column>, b: seq<Column>)
    ensures Names(a + b) == Names(a) + Names(b)
  {
    assert forall j :: 0 <= j < |a + b| ==> Names(a + b)[j] == (Names(a) + Names(b))[j];
  }

  // ---------------------------------------------------------------- cells

  /** `fillna(v)` on one column: every missing cell becomes v (a NaN fill value, None, changes nothing). */
  function FillNa(cells: seq<Cell>, v: Option<Value>): (r: seq<Cell>)
    ensures |r| == |cells|
  {
    seq(|cells|, i requires 0 <= i < |cells| => if cells[i].None? then v else cells[i])
  }

  predicate NoMissing(cells: seq<Cell>) {
    forall i :: 0 <= i < |cells| ==> cells[i].Some?
  }

  /** The fill keeps present cells, replaces only missing ones, and leaves none behind when v is a value. */
  lemma FillNaSpec(cells: seq<Cell>, v: Option<Value>)
    ensures forall i :: 0 <= i < |cells| && cells[i].Some? ==> FillNa(cells, v)[i] == cells[i]
    ensures forall i :: 0 <= i < |cells| && cells[i].None? ==> FillNa(cells, v)[i] == v
    ensures v.Some? ==> NoMissing(FillNa(cells, v))
    ensures NoMissing(cells) ==> FillNa(cells, v) == cells
    ensures v.None? ==> FillNa(cells, v) == cells
  {
  }

  /** Fill the missing cells of the named column; the column keeps its position, name and kind. */
  function FillColumn(t: Table, name: string, v: Option<Value>): (r: Table)
    requires Has(t, name)
    ensures Names(r.columns) == Names(t.columns) && r.index == t.index
  {
    var j := IndexOf(t.columns, name);
    var r := Table(t.columns[j := t.columns[j].(cells := FillNa(t.columns[j].cells, v))], t.index);
    assert Names(r.columns) == Names(t.columns);
    r
  }

  /** Filling one column keeps the table valid, touches no other column and no row,
      keeps that column's present cells, and puts v in each of its missing cells. */
  lemma FillColumnEffect(t: Table, name: string, v: Option<Value>)
    requires Valid(t) && Has(t, name)
    requires NotText(v) || Lookup(t, name).kind == Categorical
    ensures var r := FillColumn(t, name, v);
      && Valid(r) && r.index == t.index && Names(r.columns) == Names(t.columns)
      && (forall j :: 0 <= j < |t.columns| && t.columns[j].name != name ==> r.columns[j] == t.columns[j])
      && Has(r, name) && Lookup(r, name).kind == Lookup(t, name).kind
      && (forall i :: 0 <= i < Rows(t) && Lookup(t, name).cells[i].Some? ==> Lookup(r, name).cells[i] == Lookup(t, name).cells[i])
      && (forall i :: 0 <= i < Rows(t) && Lookup(t, name).cells[i].None? ==> Lookup(r, name).cells[i] == v)
      && (v.Some? ==> NoMissing(Lookup(r, name).cells))
  {
    var j := IndexOf(t.columns, name);
    var r := FillColumn(t, name, v);
    assert Names(r.columns) == Names(t.columns);
    assert FitsKind(r.columns[j]);
    IndexOfUnique(r, j);
    forall k | 0 <= k < |t.columns| && t.columns[k].name != name ensures r.columns[k] == t.columns[k] {
      assert k != j;
    }
  }

  /** A fill with nothing to fill, or with no value, leaves the table as it was. */
  lemma FillColumnNoOp(t: Table, name: string, v: Option<Value>)
    requires Has(t, name)
    requires v.None? || NoMissing(Lookup(t, name).cells)
    ensures FillColumn(t, name, v) == t
  {
    var j := IndexOf(t.columns, name);
    FillNaSpec(t.columns[j].cells, v);
    assert t.columns[j].(cells := FillNa(t.columns[j].cells, v)) == t.columns[j];
    assert t.columns[j := t.columns[j]] == t.columns;
  }

  // ---------------------------------------------------------------- rows

  /** The positions of the kept rows, in increasing order. */
  function Kept(keep: seq<bool>): (p: seq<nat>)
    ensures |p| <= |keep|
    ensures forall j :: 0 <= j < |p| ==> p[j] < |keep| && keep[p[j]]
    ensures forall a, b :: 0 <= a < b < |p| ==> p[a] < p[b]
    ensures forall i :: 0 <= i < |keep| && keep[i] ==> i in p
  {
    if keep == [] then []
    else
      var n := |keep| - 1;
      Kept(keep[..n]) + (if keep[n] then [n] else [])
  }

  function Pick<T>(s: seq<T>, p: seq<nat>): (r: seq<T>)
    requires forall j :: 0 <= j < |p| ==> p[j] < |s|
    ensures |r| == |p|
  {
    seq(|p|, j requires 0 <= j < |p| => s[p[j]])
  }

  /** A row: its label and its cells across all columns. */
  function RowAt(t: Table, i: nat): (int, seq<Cell>)
    requires Valid(t) && i < Rows(t)
  {
    (t.index[i], seq(|t.columns|, j requires 0 <= j < |t.columns| => t.columns[j].cells[i]))
  }

  /** Boolean-mask selection `df[mask]`: the rows whose mask entry is true. */
  function KeepRows(t: Table, keep: seq<bool>): (r: Table)
    requires Valid(t) && |keep| == Rows(t)
    ensures Valid(r) && Names(r.columns) == Names(t.columns)
    ensures |r.columns| == |t.columns|
    ensures forall j :: 0 <= j < |t.columns| ==> r.columns[j].name == t.columns[j].name && r.columns[j].kind == t.columns[j].kind
    ensures Rows(r) == |Kept(keep)| <= Rows(t)
  {
    var p := Kept(keep);
    var r := Table(seq(|t.columns|, j requires 0 <= j < |t.columns| => t.columns[j].(cells := Pick(t.columns[j].cells, p))),
                   Pick(t.index, p));
    assert Names(r.columns) == Names(t.columns);
    r
  }

  /** The selected table's rows are exactly the kept rows of the input, in their original order. */
  lemma KeepRowsRows(t: Table, keep: seq<bool>)
    requires Valid(t) && |keep| == Rows(t)
    ensures forall j :: 0 <= j < Rows(KeepRows(t, keep)) ==> RowAt(KeepRows(t, keep), j) == RowAt(t, Kept(keep)[j])
    ensures forall i :: 0 <= i < Rows(t) ==> (keep[i] <==> i in Kept(keep))
  {
    var r := KeepRows(t, keep);
    var p := Kept(keep);
    forall j | 0 <= j < Rows(r) ensures RowAt(r, j) == RowAt(t, p[j]) {
      assert RowAt(r, j).1 == RowAt(t, p[j]).1;
    }
  }

  /** A pandas DataFrame object; classes that share it see each other's in-place changes. */
  class DataFrame {
    var table: Table

    constructor (t: Table)
      ensures table == t
    {
      table := t;
    }
  }
}
