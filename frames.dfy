/** The DataFrame `df` of main.py as an object whose cells are changed in
    place: `fillna(..., inplace=True)` (main.py:43), the reassignment
    `df = df[selected_columns]` (main.py:54) and the two
    `dropna(..., inplace=True)` calls (main.py:60-61). Each method walks the
    rows and columns and is proved to leave the table that the matching
    function of module Tables describes. */
module Frames {
  import opened Seqs
  import opened Tables

  class DataFrame {
    var columns: seq<string>
    var rows: seq<Row>

    /** The table this object currently holds. */
    function Value(): Table
      reads this
    {
      Table(columns, rows)
    }

    ghost predicate Valid()
      reads this
    {
      WellFormed(Value())
    }

    /** The frame `pd.read_csv` / `pd.read_excel` returns (main.py:30). */
    constructor (t: Table)
      requires WellFormed(t)
      ensures Valid() && Value() == t
    {
      columns := t.columns;
      rows := t.rows;
    }

    /** The entry of `df.select_dtypes(include=["number"]).mean()` for
        column j: one pass over the rows that counts, sums and checks that
        every present cell is a number. */
    method ColumnMean(j: nat) returns (mean: Option<real>)
      requires Valid() && j < |columns|
      ensures mean == NumericMean(Column(Value(), j))
      ensures mean.Some? ==> AllNumbers(Column(Value(), j)) && HasValue(Column(Value(), j))
    {
      ghost var col := Column(Value(), j);
      var count: nat, sum, numeric := 0, 0.0, true;
      var i := 0;
      while i < |rows|
        invariant i <= |rows|
        invariant count == PresentCount(col[..i])
        invariant sum == NumberSum(col[..i])
        invariant numeric == AllNumbers(col[..i])
      {
        var c := rows[i][j];
        assert col[..i + 1][..i] == col[..i] && col[..i + 1][i] == c;
        if IsPresent(c) {
          count := count + 1;
          numeric := numeric && c.Number?;
        }
        if c.Number? {
          sum := sum + c.value;
        }
        i := i + 1;
      }
      assert col[..|rows|] == col;
      PresentCountPositive(col);
      if numeric && count > 0 {
        mean := Some(sum / (count as real));
      } else {
        mean := None;
      }
    }

    /** main.py:43 — `df.fillna(df.select_dtypes(include=["number"]).mean(),
        inplace=True)`: first the fill value of every column, then every
        missing cell of a column that has one takes it. */
    method FillMissing()
      requires Valid()
      modifies this
      ensures Valid()
      ensures Value() == Tables.FillMissing(old(Value()))
    {
      ghost var t := Value();
      var means: seq<Option<real>> := [];
      var j := 0;
      while j < |columns|
        invariant j <= |columns| && Value() == t
        invariant means == NumericMeans(t)[..j]
      {
        var m := ColumnMean(j);
        means := means + [m];
        j := j + 1;
      }
      assert means == NumericMeans(t);
      var filled: seq<Row> := [];
      var i := 0;
      while i < |rows|
        invariant i <= |rows| && Value() == t
        invariant |filled| == i
        invariant forall a :: 0 <= a < i ==> filled[a] == FillNa(t, means).rows[a]
      {
        var row := rows[i];
        var newRow: Row := [];
        var k := 0;
        while k < |row|
          invariant k <= |row|
          invariant |newRow| == k
          invariant forall c :: 0 <= c < k ==> newRow[c] == FillCell(row[c], means[c])
        {
          newRow := newRow + [FillCell(row[k], means[k])];
          k := k + 1;
        }
        filled := filled + [newRow];
        i := i + 1;
      }
      rows := filled;
    }

    /** Position of the first column labelled `name`, if any. */
    method Find(name: string) returns (pos: Option<nat>)
      ensures pos.None? <==> name !in columns
      ensures pos.Some? ==> name in columns && pos.value == IndexOf(columns, name)
    {
      var i := 0;
      while i < |columns|
        invariant i <= |columns|
        invariant forall a :: 0 <= a < i ==> columns[a] != name
      {
        if columns[i] == name {
          return Some(i);
        }
        i := i + 1;
      }
      return None;
    }

    /** Keeps the columns at positions `idx`, in that order, in the labels and
        in every row. */
    method Project(idx: seq<nat>)
      requires Valid() && InRange(idx, |columns|)
      modifies this
      ensures Valid()
      ensures Value() == Tables.Project(old(Value()), idx)
    {
      var newColumns: seq<string> := [];
      var k := 0;
      while k < |idx|
        invariant k <= |idx|
        invariant |newColumns| == k
        invariant forall c :: 0 <= c < k ==> newColumns[c] == columns[idx[c]]
      {
        newColumns := newColumns + [columns[idx[k]]];
        k := k + 1;
      }
      var newRows: seq<Row> := [];
      var i := 0;
      while i < |rows|
        invariant i <= |rows|
        invariant |newRows| == i
        invariant forall a :: 0 <= a < i ==> newRows[a] == Pick(rows[a], idx)
      {
        var row := rows[i];
        var picked: Row := [];
        k := 0;
        while k < |idx|
          invariant k <= |idx|
          invariant |picked| == k
          invariant forall c :: 0 <= c < k ==> picked[c] == row[idx[c]]
        {
          picked := picked + [row[idx[k]]];
          k := k + 1;
        }
        newRows := newRows + [picked];
        i := i + 1;
      }
      columns, rows := newColumns, newRows;
    }

    /** The labels of `names` that are not columns, in selection order, and,
        when there are none, the position of each selected label. */
    method Resolve(names: seq<string>) returns (unknown: seq<string>, idx: seq<nat>)
      ensures unknown == Unknown(columns, names)
      ensures unknown == [] ==> idx == Lookup(columns, names)
    {
      unknown, idx := [], [];
      var k := 0;
      while k < |names|
        invariant k <= |names|
        invariant unknown == Unknown(columns, names[..k])
        invariant unknown == [] ==> idx == Lookup(columns, names[..k])
      {
        var pos := Find(names[k]);
        assert names[..k + 1][..k] == names[..k] && names[..k + 1][k] == names[k];
        if pos.None? {
          unknown := unknown + [names[k]];
        } else if unknown == [] {
          idx := idx + [pos.value];
        }
        k := k + 1;
      }
      assert names[..|names|] == names;
    }

    /** main.py:54 — `df = df[selected_columns]`. Labels that are not columns
        come back in `unknown` (pandas raises a KeyError naming them) and the
        frame is left as it was. */
    method SelectColumns(names: seq<string>) returns (unknown: seq<string>)
      requires Valid()
      modifies this
      ensures Valid()
      ensures Select(old(Value()), names).Err? ==>
        unknown == Select(old(Value()), names).error && Value() == old(Value())
      ensures Select(old(Value()), names).Ok? ==>
        unknown == [] && Value() == Select(old(Value()), names).value
    {
      var idx;
      unknown, idx := Resolve(names);
      if unknown == [] {
        Project(idx);
      }
    }

    /** Does column j hold a present cell? Stops at the first one. */
    method ColumnHasValue(j: nat) returns (found: bool)
      requires Valid() && j < |columns|
      ensures found == HasValue(Column(Value(), j))
    {
      var i := 0;
      while i < |rows|
        invariant i <= |rows|
        invariant forall a :: 0 <= a < i ==> !IsPresent(rows[a][j])
      {
        if IsPresent(rows[i][j]) {
          assert IsPresent(Column(Value(), j)[i]);
          return true;
        }
        i := i + 1;
      }
      return false;
    }

    /** main.py:60 — `df.dropna(how="all", inplace=True)`: keeps, in order,
        the rows holding a present cell. */
    method DropEmptyRows()
      requires Valid()
      modifies this
      ensures Valid()
      ensures Value() == Tables.DropEmptyRows(old(Value()))
    {
      ghost var mask := RowMask(Value());
      var kept: seq<Row> := [];
      var i := 0;
      while i < |rows|
        invariant i <= |rows|
        invariant kept == Pick(rows[..i], Where(mask[..i]))
      {
        assert mask[..i + 1][..i] == mask[..i] && mask[..i + 1][i] == HasValue(rows[i]);
        ghost var w := Where(mask[..i]);
        if HasValue(rows[i]) {
          assert Pick(rows[..i + 1], w + [i]) == kept + [rows[i]];
          kept := kept + [rows[i]];
        } else {
          assert Pick(rows[..i + 1], w) == kept;
        }
        i := i + 1;
      }
      assert rows[..|rows|] == rows && mask[..|rows|] == mask;
      rows := kept;
    }

    /** main.py:61 — `df.dropna(axis=1, how="all", inplace=True)`: finds the
        columns holding a present cell, then keeps exactly those, in order. */
    method DropEmptyColumns()
      requires Valid()
      modifies this
      ensures Valid()
      ensures Value() == Tables.DropEmptyColumns(old(Value()))
    {
      ghost var mask := ColumnMask(Value());
      var keep: seq<nat> := [];
      var j := 0;
      while j < |columns|
        invariant j <= |columns| && Value() == old(Value())
        invariant keep == Where(mask[..j])
      {
        assert mask[..j + 1][..j] == mask[..j];
        var found := ColumnHasValue(j);
        if found {
          keep := keep + [j];
        }
        j := j + 1;
      }
      assert mask[..|columns|] == mask;
      Project(keep);
    }
  }
}
