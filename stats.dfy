/** Column statistics pandas computes for the fill values: mean, median and
    mode over the present cells, idealised over exact reals. A statistic of a
    column without present values is None, pandas' NaN (mean, median) or its
    empty mode series. */
module Stats {
  import opened Frames

  /** The numbers among the present cells, in row order. */
  function Numbers(cells: seq<Cell>): (r: seq<real>)
    ensures |r| <= |cells|
    ensures forall x :: x in r <==> Some(Num(x)) in cells
  {
    if cells == [] then []
    else (if cells[0].Some? && cells[0].value.Num? then [cells[0].value.x] else []) + Numbers(cells[1..])
  }

  /** A column without text has numbers exactly when some cell is present. */
  lemma {:induction false} NumbersOfNumericColumn(cells: seq<Cell>)
    requires forall i :: 0 <= i < |cells| ==> NotText(cells[i])
    ensures Numbers(cells) == [] <==> forall i :: 0 <= i < |cells| ==> cells[i].None?
  {
    if cells != [] {
      NumbersOfNumericColumn(cells[1..]);
      if cells[0].None? {
        forall i | 0 <= i < |cells| && !cells[i].None? ensures Numbers(cells) != [] {
          assert cells[1..][i - 1] == cells[i];
        }
      }
    }
  }

  function Sum(xs: seq<real>): real {
    if xs == [] then 0.0 else xs[0] + Sum(xs[1..])
  }

  function Min(xs: seq<real>): (m: real)
    requires xs != []
    ensures m in xs && forall x :: x in xs ==> m <= x
  {
    if |xs| == 1 then xs[0]
    else
      var r := Min(xs[1..]);
      assert forall x :: x in xs ==> x == xs[0] || x in xs[1..];
      if xs[0] <= r then xs[0] else r
  }

  function Max(xs: seq<real>): (m: real)
    requires xs != []
    ensures m in xs && forall x :: x in xs ==> x <= m
  {
    if |xs| == 1 then xs[0]
    else
      var r := Max(xs[1..]);
      assert forall x :: x in xs ==> x == xs[0] || x in xs[1..];
      if xs[0] >= r then xs[0] else r
  }

  /** `Series.mean()`: NaN (None) when there is nothing to average. */
  function Mean(xs: seq<real>): (m: Option<real>)
    ensures m.None? <==> xs == []
  {
    if xs == [] then None else Some(Sum(xs) / |xs| as real)
  }

  lemma {:induction false} SumBounds(xs: seq<real>, lo: real, hi: real)
    requires forall x :: x in xs ==> lo <= x <= hi
    ensures lo * |xs| as real <= Sum(xs) <= hi * |xs| as real
  {
    if xs != [] {
      assert xs[0] in xs;
      assert forall x :: x in xs[1..] ==> x in xs;
      SumBounds(xs[1..], lo, hi);
    }
  }

  /** The mean lies between the smallest and the largest value averaged. */
  lemma MeanWithinRange(xs: seq<real>)
    requires xs != []
    ensures Mean(xs).Some? && Min(xs) <= Mean(xs).value <= Max(xs)
  {
    var n := |xs| as real;
    SumBounds(xs, Min(xs), Max(xs));
    DivideBounds(Min(xs), Sum(xs), Max(xs), n);
  }

  lemma DivideBounds(lo: real, s: real, hi: real, n: real)
    requires n > 0.0 && lo * n <= s <= hi * n
    ensures lo <= s / n <= hi
  {
    var q := s / n;
    assert q * n == s;
  }

  predicate Sorted(s: seq<real>) {
    forall i, j :: 0 <= i < j < |s| ==> s[i] <= s[j]
  }

  function Insert(x: real, s: seq<real>): (r: seq<real>)
    ensures multiset(r) == multiset(s) + multiset{x}
  {
    if s == [] || x <= s[0] then [x] + s
    else
      assert s == [s[0]] + s[1..];
      [s[0]] + Insert(x, s[1..])
  }

  lemma {:induction false} InsertSorted(x: real, s: seq<real>)
    requires Sorted(s)
    ensures Sorted(Insert(x, s))
  {
    if s != [] && x > s[0] {
      var tail := Insert(x, s[1..]);
      InsertSorted(x, s[1..]);
      forall k | 0 <= k < |tail| ensures s[0] <= tail[k] {
        assert tail[k] in multiset(tail);
        if tail[k] != x {
          assert tail[k] in multiset(s[1..]);
        }
      }
    }
  }

  /** Ascending order of the values, as `Series.median()` uses. */
  function Sort(xs: seq<real>): (r: seq<real>)
    ensures Sorted(r) && multiset(r) == multiset(xs) && |r| == |xs|
  {
    if xs == [] then []
    else
      InsertSorted(xs[0], Sort(xs[1..]));
      var r := Insert(xs[0], Sort(xs[1..]));
      assert xs == [xs[0]] + xs[1..];
      assert |r| == |multiset(r)|;
      r
  }

  /** `Series.median()`: the middle value, or the mean of the two middle values. */
  function Median(xs: seq<real>): (m: Option<real>)
    ensures m.None? <==> xs == []
  {
    if xs == [] then None
    else
      var s := Sort(xs);
      var n := |s|;
      Some(if n % 2 == 1 then s[n / 2] else (s[n / 2 - 1] + s[n / 2]) / 2.0)
  }

  /** The median lies between the smallest and the largest value. */
  lemma MedianWithinRange(xs: seq<real>)
    requires xs != []
    ensures Median(xs).Some? && Min(xs) <= Median(xs).value <= Max(xs)
  {
    var s := Sort(xs);
    forall k | 0 <= k < |s| ensures Min(xs) <= s[k] <= Max(xs) {
      assert s[k] in multiset(s);
      assert s[k] in xs;
    }
  }

  /** How many rows hold the value v. */
  function Freq(cells: seq<Cell>, v: Value): nat {
    if cells == [] then 0 else (if cells[0] == Some(v) then 1 else 0) + Freq(cells[1..], v)
  }

  /** The present candidate most frequent in `cells`, the earliest one among equals. */
  function Best(cand: seq<Cell>, cells: seq<Cell>): (r: Option<Value>)
    ensures r.None? <==> forall i :: 0 <= i < |cand| ==> cand[i].None?
    ensures r.Some? ==> Some(r.value) in cand
    ensures r.Some? ==> forall i :: 0 <= i < |cand| && cand[i].Some? ==> Freq(cells, cand[i].value) <= Freq(cells, r.value)
  {
    if cand == [] then None
    else
      var rest := Best(cand[1..], cells);
      assert forall v :: Some(v) in cand[1..] ==> Some(v) in cand;
      if cand[0].None? then rest
      else if rest.None? || Freq(cells, cand[0].value) >= Freq(cells, rest.value) then cand[0]
      else rest
  }

  /** Each number occurs in Numbers as often as the column holds it, so mean and
      median see every present value with its multiplicity. */
  lemma {:induction false} NumbersCount(cells: seq<Cell>)
    ensures forall x :: multiset(Numbers(cells))[x] == Freq(cells, Num(x))
  {
    if cells != [] {
      NumbersCount(cells[1..]);
      var head := if cells[0].Some? && cells[0].value.Num? then [cells[0].value.x] else [];
      assert Numbers(cells) == head + Numbers(cells[1..]);
      assert multiset(Numbers(cells)) == multiset(head) + multiset(Numbers(cells[1..]));
    }
  }

  /** `Series.mode()[0]`: a most frequent present value, None when every cell is missing. */
  function Mode(cells: seq<Cell>): (r: Option<Value>)
    ensures r.None? <==> forall i :: 0 <= i < |cells| ==> cells[i].None?
    ensures r.Some? ==> Some(r.value) in cells
    ensures r.Some? ==> forall i :: 0 <= i < |cells| && cells[i].Some? ==> Freq(cells, cells[i].value) <= Freq(cells, r.value)
  {
    Best(cells, cells)
  }

  lemma {:induction false} BestFirstAmongTies(cand: seq<Cell>, cells: seq<Cell>, i: nat)
    requires i < |cand| && cand[i].Some? && Best(cand, cells).Some?
    requires Freq(cells, cand[i].value) == Freq(cells, Best(cand, cells).value)
    ensures Some(Best(cand, cells).value) in cand[..i + 1]
  {
    var r := Best(cand, cells);
    var rest := Best(cand[1..], cells);
    if cand[0].Some? && (rest.None? || Freq(cells, cand[0].value) >= Freq(cells, rest.value)) {
      assert r == cand[0];
      assert cand[..i + 1][0] == cand[0];
    } else {
      assert r == rest;
      if i > 0 {
        assert cand[1..][i - 1] == cand[i];
        BestFirstAmongTies(cand[1..], cells, i - 1);
        assert cand[1..][..i] == cand[1..i + 1];
      }
    }
  }

  /** Among values tied for the highest frequency, the mode is the one seen first. */
  lemma ModeIsFirstAmongTies(cells: seq<Cell>, i: nat)
    requires i < |cells| && cells[i].Some? && Mode(cells).Some?
    requires Freq(cells, cells[i].value) == Freq(cells, Mode(cells).value)
    ensures Some(Mode(cells).value) in cells[..i + 1]
  {
    BestFirstAmongTies(cells, cells, i);
  }

  /** A real statistic as a fill value. */
  function AsValue(m: Option<real>): (v: Option<Value>)
    ensures NotText(v) && (v.Some? <==> m.Some?)
  {
    if m.Some? then Some(Num(m.value)) else None
  }

  /** `column.mean()` as a fill value. */
  function ColumnMean(cells: seq<Cell>): Option<Value> {
    AsValue(Mean(Numbers(cells)))
  }

  /** `column.median()` as a fill value. */
  function ColumnMedian(cells: seq<Cell>): Option<Value> {
    AsValue(Median(Numbers(cells)))
  }

  /** On a column without text, mean and median exist exactly when some cell is present. */
  lemma NumericStatisticsExist(cells: seq<Cell>)
    requires forall i :: 0 <= i < |cells| ==> NotText(cells[i])
    ensures ColumnMean(cells).Some? <==> exists i :: 0 <= i < |cells| && cells[i].Some?
    ensures ColumnMedian(cells).Some? <==> exists i :: 0 <= i < |cells| && cells[i].Some?
  {
    NumbersOfNumericColumn(cells);
  }

  /** The mode of a numeric column is a number. */
  lemma ModeFitsColumn(t: Table, column: string)
    requires Valid(t) && Has(t, column)
    ensures NotText(Mode(Lookup(t, column).cells)) || Lookup(t, column).kind == Categorical
  {
    var col := Lookup(t, column);
    var m := Mode(col.cells);
    if m.Some? && col.kind == Numeric {
      var i :| 0 <= i < |col.cells| && col.cells[i] == Some(m.value);
      assert NotText(col.cells[i]);
    }
  }
}
