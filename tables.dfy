/** The table the script cleans (a pandas DataFrame) as a value, and the
    meaning of each cleaning step as a function on such values:
    fill-missing by numeric column mean (main.py:43), column selection
    (main.py:47-54) and the two `dropna(how="all")` calls (main.py:60-61).
    The class in frames.dfy performs these steps in place and is proved
    against these functions. */
module Tables {
  import opened Seqs

  /** A cell of the table. `Missing` is pandas' NaN/None. */
  datatype Cell = Number(value: real) | Text(text: string) | Bool(flag: bool) | Missing

  type Row = seq<Cell>

  /** Column labels in order, and the rows in order, each row giving one
      cell per column. */
  datatype Table = Table(columns: seq<string>, rows: seq<Row>)

  /** Every row has one cell per column. */
  predicate WellFormed(t: Table) {
    forall i :: 0 <= i < |t.rows| ==> |t.rows[i]| == |t.columns|
  }

  predicate IsPresent(c: Cell) {
    !c.Missing?
  }

  /** The cells of column `j`, top to bottom. */
  function Column(t: Table, j: nat): (col: seq<Cell>)
    requires WellFormed(t) && j < |t.columns|
    ensures |col| == |t.rows|
  {
    seq(|t.rows|, i requires 0 <= i < |t.rows| => t.rows[i][j])
  }

  /** Some cell of `s` is not missing. */
  predicate HasValue(s: seq<Cell>) {
    exists k :: 0 <= k < |s| && IsPresent(s[k])
  }

  /** Every present cell is a number: what `select_dtypes(include=["number"])`
      keeps. Text and booleans make a column non-numeric. */
  predicate AllNumbers(s: seq<Cell>) {
    forall k :: 0 <= k < |s| && IsPresent(s[k]) ==> s[k].Number?
  }

  /** The number of present cells (pandas' `count`). */
  function PresentCount(s: seq<Cell>): (n: nat)
    ensures n <= |s|
  {
    if s == [] then 0
    else PresentCount(s[..|s| - 1]) + (if IsPresent(s[|s| - 1]) then 1 else 0)
  }

  /** The sum of the numeric cells. */
  function NumberSum(s: seq<Cell>): real {
    if s == [] then 0.0
    else NumberSum(s[..|s| - 1]) + (if s[|s| - 1].Number? then s[|s| - 1].value else 0.0)
  }

  /** The mean of the present values, exact (no floating-point rounding). */
  function Mean(s: seq<Cell>): real
    requires PresentCount(s) > 0
  {
    NumberSum(s) / (PresentCount(s) as real)
  }

  /** One entry of `df.select_dtypes(include=["number"]).mean()`: the mean
      for a numeric column with a present value, and `None` both for a
      column the selection drops and for the NaN mean of an all-missing
      column; `fillna` does nothing with either. */
  function NumericMean(s: seq<Cell>): Option<real> {
    if AllNumbers(s) && PresentCount(s) > 0 then Some(Mean(s)) else None
  }

  /** The fill value of every column, in column order. */
  function NumericMeans(t: Table): (values: seq<Option<real>>)
    requires WellFormed(t)
    ensures |values| == |t.columns|
  {
    seq(|t.columns|, j requires 0 <= j < |t.columns| => NumericMean(Column(t, j)))
  }

  /** `fillna` on one cell: only a missing cell takes the column's value. */
  function FillCell(c: Cell, v: Option<real>): Cell {
    if c.Missing? && v.Some? then Number(v.value) else c
  }

  /** `fillna` with one optional value per column. */
  function FillNa(t: Table, values: seq<Option<real>>): (r: Table)
    requires WellFormed(t) && |values| == |t.columns|
    ensures WellFormed(r) && r.columns == t.columns && |r.rows| == |t.rows|
  {
    Table(t.columns, seq(|t.rows|, i requires 0 <= i < |t.rows| =>
      seq(|t.columns|, j requires 0 <= j < |t.columns| => FillCell(t.rows[i][j], values[j]))))
  }

  /** main.py:43 — `df.fillna(df.select_dtypes(include=["number"]).mean())`. */
  function FillMissing(t: Table): (r: Table)
    requires WellFormed(t)
    ensures WellFormed(r) && r.columns == t.columns && |r.rows| == |t.rows|
  {
    FillNa(t, NumericMeans(t))
  }

  /** `fillna` on one column. */
  function FillColumn(s: seq<Cell>, v: Option<real>): (r: seq<Cell>)
    ensures |r| == |s|
  {
    seq(|s|, k requires 0 <= k < |s| => FillCell(s[k], v))
  }

  // ---- properties of counting and averaging ----

  /** A column has a present cell exactly when its count is positive. */
  lemma {:induction false} PresentCountPositive(s: seq<Cell>)
    ensures PresentCount(s) > 0 <==> HasValue(s)
  {
    if s != [] {
      var front := s[..|s| - 1];
      PresentCountPositive(front);
      if HasValue(front) {
        var k :| 0 <= k < |front| && IsPresent(front[k]);
        assert IsPresent(s[k]);
      }
      if HasValue(s) && !IsPresent(s[|s| - 1]) {
        var k :| 0 <= k < |s| && IsPresent(s[k]);
        assert front[k] == s[k];
      }
    }
  }

  /** Bounds on every present value bound the sum by the count. */
  lemma {:induction false} SumBetween(s: seq<Cell>, lo: real, hi: real)
    requires AllNumbers(s)
    requires forall k :: 0 <= k < |s| && s[k].Number? ==> lo <= s[k].value <= hi
    ensures Times(PresentCount(s), lo) <= NumberSum(s) <= Times(PresentCount(s), hi)
  {
    if s != [] {
      var front := s[..|s| - 1];
      assert forall k :: 0 <= k < |front| ==> front[k] == s[k];
      SumBetween(front, lo, hi);
    }
  }

  /** A quotient by a positive count stays within bounds scaled by it. */
  lemma DivBetween(sum: real, c: real, lo: real, hi: real)
    requires c > 0.0 && lo * c <= sum <= hi * c
    ensures lo <= sum / c <= hi
  {
  }

  /** `v` added `k` times. */
  function Times(k: nat, v: real): real {
    if k == 0 then 0.0 else Times(k - 1, v) + v
  }

  lemma {:induction false} TimesIsProduct(k: nat, v: real)
    ensures Times(k, v) == (k as real) * v
  {
    if k > 0 {
      TimesIsProduct(k - 1, v);
    }
  }

  /** Adding the mean m once for each of the n - c missing cells keeps the
      mean. */
  lemma MeanOfPadded(sum: real, c: nat, n: nat, m: real, total: real)
    requires 0 < c <= n && m == sum / (c as real)
    requires total == sum + Times(n - c, m)
    ensures total / (n as real) == m
  {
    TimesIsProduct(n - c, m);
    assert sum == m * (c as real);
    assert total == m * (n as real);
  }

  /** The value fill-missing writes lies between the smallest and the
      largest present value of its column. */
  lemma MeanFromSumBounds(s: seq<Cell>, lo: real, hi: real)
    requires PresentCount(s) > 0
    requires Times(PresentCount(s), lo) <= NumberSum(s) <= Times(PresentCount(s), hi)
    ensures lo <= Mean(s) <= hi
  {
    TimesIsProduct(PresentCount(s), lo);
    TimesIsProduct(PresentCount(s), hi);
    DivBetween(NumberSum(s), PresentCount(s) as real, lo, hi);
  }

  lemma MeanBetween(s: seq<Cell>, lo: real, hi: real)
    requires AllNumbers(s) && PresentCount(s) > 0
    requires forall k :: 0 <= k < |s| && s[k].Number? ==> lo <= s[k].value <= hi
    ensures lo <= Mean(s) <= hi
  {
    SumBetween(s, lo, hi);
    MeanFromSumBounds(s, lo, hi);
  }

  /** Filling a numeric column with v: every cell is then present and v is
      added once per formerly missing cell. */
  lemma {:induction false} FillColumnSums(s: seq<Cell>, v: real)
    requires AllNumbers(s)
    ensures PresentCount(FillColumn(s, Some(v))) == |s|
    ensures NumberSum(FillColumn(s, Some(v))) == NumberSum(s) + Times(|s| - PresentCount(s), v)
  {
    if s != [] {
      var front := s[..|s| - 1];
      assert forall k :: 0 <= k < |front| ==> front[k] == s[k];
      FillColumnSums(front, v);
      assert FillColumn(s, Some(v))[..|s| - 1] == FillColumn(front, Some(v));
    }
  }

  /** Filling a numeric column with its own mean leaves the mean unchanged,
      and leaves no cell missing. */
  lemma FillKeepsMean(s: seq<Cell>)
    requires AllNumbers(s) && PresentCount(s) > 0
    ensures AllNumbers(FillColumn(s, Some(Mean(s))))
    ensures forall k :: 0 <= k < |s| ==> IsPresent(FillColumn(s, Some(Mean(s)))[k])
    ensures PresentCount(FillColumn(s, Some(Mean(s)))) > 0
    ensures Mean(FillColumn(s, Some(Mean(s)))) == Mean(s)
  {
    FillColumnSums(s, Mean(s));
    MeanAfterPadding(s, FillColumn(s, Some(Mean(s))));
  }

  /** A column whose sum gained the mean of `s` once per missing cell of `s`
      and whose count is the length of `s` has the mean of `s`. */
  lemma MeanAfterPadding(s: seq<Cell>, f: seq<Cell>)
    requires 0 < PresentCount(s) <= |s| == PresentCount(f)
    requires NumberSum(f) == NumberSum(s) + Times(|s| - PresentCount(s), Mean(s))
    ensures Mean(f) == Mean(s)
  {
    MeanOfPadded(NumberSum(s), PresentCount(s), |s|, Mean(s), NumberSum(f));
  }

  /** Column j after `FillNa` is column j filled with that column's value. */
  lemma FillNaColumn(t: Table, values: seq<Option<real>>, j: nat)
    requires WellFormed(t) && |values| == |t.columns| && j < |t.columns|
    ensures WellFormed(FillNa(t, values))
    ensures Column(FillNa(t, values), j) == FillColumn(Column(t, j), values[j])
  {
  }

  /** main.py:43, cell by cell: present cells are kept; a missing cell of a
      numeric column with a present value becomes that column's mean; every
      other missing cell stays missing. The shape is unchanged. */
  lemma FillMissingCells(t: Table)
    requires WellFormed(t)
    ensures WellFormed(FillMissing(t))
    ensures FillMissing(t).columns == t.columns && |FillMissing(t).rows| == |t.rows|
    ensures forall i, j :: 0 <= i < |t.rows| && 0 <= j < |t.columns| && IsPresent(t.rows[i][j]) ==>
      FillMissing(t).rows[i][j] == t.rows[i][j]
    ensures forall i, j ::
      (0 <= i < |t.rows| && 0 <= j < |t.columns| && t.rows[i][j].Missing?
       && AllNumbers(Column(t, j)) && PresentCount(Column(t, j)) > 0) ==>
      FillMissing(t).rows[i][j] == Number(Mean(Column(t, j)))
    ensures forall i, j ::
      (0 <= i < |t.rows| && 0 <= j < |t.columns| && t.rows[i][j].Missing?
       && !(AllNumbers(Column(t, j)) && HasValue(Column(t, j)))) ==>
      FillMissing(t).rows[i][j] == Missing
  {
    forall j | 0 <= j < |t.columns| {
      PresentCountPositive(Column(t, j));
    }
  }

  /** main.py:43, column by column: a non-numeric column and a numeric
      column without any present value come out as they went in; a numeric
      column with a present value comes out numeric, with no missing cell,
      and with the same mean. */
  lemma FillMissingColumn(t: Table, j: nat)
    requires WellFormed(t) && j < |t.columns|
    ensures WellFormed(FillMissing(t))
    ensures !(AllNumbers(Column(t, j)) && HasValue(Column(t, j))) ==>
      Column(FillMissing(t), j) == Column(t, j)
    ensures AllNumbers(Column(t, j)) && HasValue(Column(t, j)) ==>
      && AllNumbers(Column(FillMissing(t), j))
      && !(exists i :: 0 <= i < |t.rows| && Column(FillMissing(t), j)[i].Missing?)
      && PresentCount(Column(t, j)) > 0
      && PresentCount(Column(FillMissing(t), j)) > 0
      && Mean(Column(FillMissing(t), j)) == Mean(Column(t, j))
  {
    var col := Column(t, j);
    PresentCountPositive(col);
    FillNaColumn(t, NumericMeans(t), j);
    if AllNumbers(col) && HasValue(col) {
      FillKeepsMean(col);
    } else {
      assert FillColumn(col, None) == col;
    }
  }

  /** Filling twice is filling once. */
  lemma FillMissingIdempotent(t: Table)
    requires WellFormed(t)
    ensures WellFormed(FillMissing(t))
    ensures FillMissing(FillMissing(t)) == FillMissing(t)
  {
    var f := FillMissing(t);
    FillMissingCells(t);
    forall i, j | 0 <= i < |t.rows| && 0 <= j < |t.columns|
      ensures FillCell(f.rows[i][j], NumericMeans(f)[j]) == f.rows[i][j]
    {
      FillMissingColumn(t, j);
      var col := Column(t, j);
      if AllNumbers(col) && HasValue(col) {
        assert Column(f, j)[i] == f.rows[i][j];
      } else {
        PresentCountPositive(col);
        assert NumericMeans(f)[j] == NumericMean(Column(f, j)) == None;
      }
    }
    var g := FillMissing(f);
    assert |g.rows| == |f.rows|;
    forall i | 0 <= i < |f.rows| ensures g.rows[i] == f.rows[i] {
      assert |g.rows[i]| == |f.rows[i]|;
    }
  }

  // ---- column selection ----

  /** Position of the first column labelled `x`. */
  function IndexOf(s: seq<string>, x: string): (k: nat)
    requires x in s
    ensures k < |s| && s[k] == x
    ensures forall a :: 0 <= a < k ==> s[a] != x
  {
    if s[0] == x then 0 else 1 + IndexOf(s[1..], x)
  }

  /** The labels of `names` that are not columns, in selection order. */
  function Unknown(columns: seq<string>, names: seq<string>): (u: seq<string>)
    ensures forall x :: x in u <==> x in names && x !in columns
    ensures u == [] <==> forall k :: 0 <= k < |names| ==> names[k] in columns
  {
    if names == [] then []
    else
      var last := names[|names| - 1];
      Unknown(columns, names[..|names| - 1]) + (if last in columns then [] else [last])
  }

  /** The positions of the selected labels. */
  function Lookup(columns: seq<string>, names: seq<string>): (idx: seq<nat>)
    requires forall k :: 0 <= k < |names| ==> names[k] in columns
    ensures |idx| == |names| && InRange(idx, |columns|)
  {
    seq(|names|, k requires 0 <= k < |names| => IndexOf(columns, names[k]))
  }

  /** The table restricted to the columns at positions `idx`, in that order. */
  function Project(t: Table, idx: seq<nat>): (r: Table)
    requires WellFormed(t) && InRange(idx, |t.columns|)
    ensures WellFormed(r)
  {
    Table(Pick(t.columns, idx), seq(|t.rows|, i requires 0 <= i < |t.rows| => Pick(t.rows[i], idx)))
  }

  /** main.py:54 — `df[selected_columns]`; labels that are not columns make
      pandas raise a KeyError naming them. */
  function Select(t: Table, names: seq<string>): (r: Result<Table, seq<string>>)
    requires WellFormed(t)
    ensures r.Err? ==> r.error != []
    ensures r.Ok? ==> WellFormed(r.value) && r.value.columns == names && |r.value.rows| == |t.rows|
  {
    var unknown := Unknown(t.columns, names);
    if unknown != [] then Err(unknown) else Ok(Project(t, Lookup(t.columns, names)))
  }

  /** The cell of row i under the label `name`. */
  function Get(t: Table, i: nat, name: string): Cell
    requires WellFormed(t) && i < |t.rows| && name in t.columns
  {
    t.rows[i][IndexOf(t.columns, name)]
  }

  /** Selection fails exactly when a selected label is not a column, and
      then names exactly those labels; otherwise the result has exactly the
      selected columns in selection order and the same rows in the same
      order, each row holding that row's cells under the selected labels. */
  lemma SelectSpec(t: Table, names: seq<string>)
    requires WellFormed(t)
    ensures Select(t, names).Err? <==> exists k :: 0 <= k < |names| && names[k] !in t.columns
    ensures Select(t, names).Err? ==>
      forall x :: x in Select(t, names).error <==> x in names && x !in t.columns
    ensures Select(t, names).Ok? ==>
      && WellFormed(Select(t, names).value)
      && Select(t, names).value.columns == names
      && |Select(t, names).value.rows| == |t.rows|
      && forall i, k :: 0 <= i < |t.rows| && 0 <= k < |names| ==>
           names[k] in t.columns && Select(t, names).value.rows[i][k] == Get(t, i, names[k])
  {
    var u := Unknown(t.columns, names);
    if exists k :: 0 <= k < |names| && names[k] !in t.columns {
      var k :| 0 <= k < |names| && names[k] !in t.columns;
      assert names[k] in u;
    } else {
      var r := Project(t, Lookup(t.columns, names));
      assert Select(t, names) == Ok(r);
      assert r.columns == names;
    }
  }

  /** The default selection, every column in table order, changes nothing
      (labels of a loaded table are distinct). */
  lemma {:induction false} SelectAll(t: Table)
    requires WellFormed(t) && Distinct(t.columns)
    ensures Select(t, t.columns) == Ok(t)
  {
    var cs := t.columns;
    assert Unknown(cs, cs) == [];
    var idx := Lookup(cs, cs);
    forall k | 0 <= k < |cs| ensures idx[k] == k {
      var p := IndexOf(cs, cs[k]);
      assert !(p < k) && !(k < p);
    }
    assert idx == Range(|cs|);
    PickRange(cs);
    forall i | 0 <= i < |t.rows| ensures Pick(t.rows[i], idx) == t.rows[i] {
      PickRange(t.rows[i]);
    }
    var r := Project(t, idx);
    assert r.columns == cs;
    assert r.rows == t.rows;
  }

  // ---- empty-row and empty-column pruning ----

  /** Which rows hold a present cell. */
  function RowMask(t: Table): (mask: seq<bool>)
    ensures |mask| == |t.rows|
  {
    seq(|t.rows|, i requires 0 <= i < |t.rows| => HasValue(t.rows[i]))
  }

  /** Which columns hold a present cell. */
  function ColumnMask(t: Table): (mask: seq<bool>)
    requires WellFormed(t)
    ensures |mask| == |t.columns|
  {
    seq(|t.columns|, j requires 0 <= j < |t.columns| => HasValue(Column(t, j)))
  }

  /** The positions of the rows `dropna(how="all")` keeps. */
  function KeptRows(t: Table): (idx: seq<nat>)
    ensures InRange(idx, |t.rows|)
  {
    Where(RowMask(t))
  }

  /** The positions of the columns `dropna(axis=1, how="all")` keeps. */
  function KeptColumns(t: Table): (idx: seq<nat>)
    requires WellFormed(t)
    ensures InRange(idx, |t.columns|)
  {
    Where(ColumnMask(t))
  }

  /** main.py:60 — `df.dropna(how="all")`. A row with no cells counts as
      all-missing, as in pandas (`notna(...).any(axis=1)` is false). */
  function DropEmptyRows(t: Table): (r: Table)
    ensures r.columns == t.columns && |r.rows| <= |t.rows|
    ensures WellFormed(t) ==> WellFormed(r)
  {
    Table(t.columns, Pick(t.rows, KeptRows(t)))
  }

  /** main.py:61 — `df.dropna(axis=1, how="all")`. On a table without rows
      every column counts as all-missing, as in pandas. */
  function DropEmptyColumns(t: Table): (r: Table)
    requires WellFormed(t)
    ensures WellFormed(r) && |r.columns| <= |t.columns| && |r.rows| == |t.rows|
  {
    Project(t, KeptColumns(t))
  }

  /** No row is entirely missing. */
  predicate NoEmptyRows(t: Table) {
    forall i :: 0 <= i < |t.rows| ==> HasValue(t.rows[i])
  }

  /** No column is entirely missing. */
  predicate NoEmptyColumns(t: Table)
    requires WellFormed(t)
  {
    forall j :: 0 <= j < |t.columns| ==> HasValue(Column(t, j))
  }

  /** main.py:60 — row pruning removes exactly the rows without a present
      cell and keeps the others in their order; columns are untouched. */
  lemma DropEmptyRowsSpec(t: Table)
    requires WellFormed(t)
    ensures WellFormed(DropEmptyRows(t))
    ensures DropEmptyRows(t).columns == t.columns
    ensures |DropEmptyRows(t).rows| <= |t.rows|
    ensures SubsequenceAt(DropEmptyRows(t).rows, t.rows, KeptRows(t))
    ensures forall i :: 0 <= i < |t.rows| ==> (i in KeptRows(t) <==> HasValue(t.rows[i]))
    ensures NoEmptyRows(DropEmptyRows(t))
  {
    WhereExact(RowMask(t));
  }

  /** main.py:61 — column pruning removes exactly the columns without a
      present cell and keeps the others in their order, in the labels and
      in every row; the row count is unchanged. */
  lemma DropEmptyColumnsSpec(t: Table)
    requires WellFormed(t)
    ensures WellFormed(DropEmptyColumns(t))
    ensures SubsequenceAt(DropEmptyColumns(t).columns, t.columns, KeptColumns(t))
    ensures |DropEmptyColumns(t).rows| == |t.rows|
    ensures forall i :: 0 <= i < |t.rows| ==>
      SubsequenceAt(DropEmptyColumns(t).rows[i], t.rows[i], KeptColumns(t))
    ensures forall j :: 0 <= j < |t.columns| ==> (j in KeptColumns(t) <==> HasValue(Column(t, j)))
    ensures NoEmptyColumns(DropEmptyColumns(t))
  {
    var kept := KeptColumns(t);
    var r := DropEmptyColumns(t);
    WhereExact(ColumnMask(t));
    forall k | 0 <= k < |r.columns| ensures HasValue(Column(r, k)) {
      assert ColumnMask(t)[kept[k]];
      var i :| 0 <= i < |t.rows| && IsPresent(Column(t, kept[k])[i]);
      assert Column(r, k)[i] == t.rows[i][kept[k]];
    }
  }

  /** Both prunes, in the order main.py:60-61 runs them. */
  function Prune(t: Table): (r: Table)
    requires WellFormed(t)
    ensures WellFormed(r) && |r.columns| <= |t.columns| && |r.rows| <= |t.rows|
  {
    DropEmptyColumns(DropEmptyRows(t))
  }

  /** After both prunes no row and no column is entirely missing: dropping
      all-missing columns never empties a row. */
  lemma PruneLeavesNoEmpty(t: Table)
    requires WellFormed(t)
    ensures WellFormed(Prune(t))
    ensures NoEmptyRows(Prune(t)) && NoEmptyColumns(Prune(t))
  {
    var u := DropEmptyRows(t);
    DropEmptyRowsSpec(t);
    DropEmptyColumnsSpec(u);
    var p := Prune(t);
    var kept := KeptColumns(u);
    forall i | 0 <= i < |p.rows| ensures HasValue(p.rows[i]) {
      assert HasValue(u.rows[i]);
      var j :| 0 <= j < |u.rows[i]| && IsPresent(u.rows[i][j]);
      assert IsPresent(Column(u, j)[i]);
      assert j in kept;
      var k :| 0 <= k < |kept| && kept[k] == j;
      assert IsPresent(p.rows[i][k]);
    }
  }

  /** Row pruning leaves a table without all-missing rows as it is. */
  lemma DropEmptyRowsNoop(t: Table)
    requires NoEmptyRows(t)
    ensures DropEmptyRows(t) == t
  {
    WhereAll(RowMask(t));
    PickRange(t.rows);
  }

  /** Column pruning leaves a table without all-missing columns as it is. */
  lemma DropEmptyColumnsNoop(t: Table)
    requires WellFormed(t) && NoEmptyColumns(t)
    ensures DropEmptyColumns(t) == t
  {
    WhereAll(ColumnMask(t));
    PickRange(t.columns);
    forall i | 0 <= i < |t.rows| ensures Pick(t.rows[i], KeptColumns(t)) == t.rows[i] {
      PickRange(t.rows[i]);
    }
  }

  /** Pruning twice is pruning once. */
  lemma PruneIdempotent(t: Table)
    requires WellFormed(t)
    ensures WellFormed(Prune(t))
    ensures Prune(Prune(t)) == Prune(t)
  {
    var p := Prune(t);
    PruneLeavesNoEmpty(t);
    DropEmptyRowsNoop(p);
    DropEmptyColumnsNoop(p);
  }
}
