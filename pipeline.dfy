/** The loop over the uploaded files (main.py:24-45, with main.py:47-100
    applied to each file as well; see README, "Left out"), one file at a time:
    the extension test that skips a file (main.py:25-28), then on the table
    read from it the optional fill (main.py:42-43), the column selection
    (main.py:47-54), the two prunes (main.py:60-61) and the download that is
    offered (main.py:79-100). The checkbox, the multiselect and the radio
    are the user's choices and arrive with each file. */
module Pipeline {
  import opened Seqs
  import opened Tables
  import opened FileNames
  import opened Export
  import Frames

  /** One uploaded file with the choices made for it: the table pandas
      read from it, whether "Fill missing values" is ticked, the columns
      picked (`None` is the multiselect's default, every column) and the
      download format. */
  datatype Upload = Upload(
    name: string,
    content: Table,
    fillMissing: bool,
    selection: Option<seq<string>>,
    format: Format)

  /** A file with a supported extension is read into a rectangular table;
      the content of any other file is never looked at. */
  predicate Readable(u: Upload) {
    IsSupported(Extension(u.name)) ==> WellFormed(u.content)
  }

  /** What happens to one file: it is skipped with the "Unsupported file
      format" error (main.py:27), the selection names labels that are not
      columns (pandas' KeyError at main.py:54), or it is cleaned and offered
      for download. */
  datatype Outcome =
    | Unsupported(ext: string)
    | UnknownColumns(names: seq<string>)
    | Cleaned(table: Table, download: Download)

  /** The cleaning steps of main.py:42-61 on one table. */
  function Clean(t: Table, fill: bool, selection: Option<seq<string>>): Result<Table, seq<string>>
    requires WellFormed(t)
  {
    FillMissingCells(t);
    var filled := if fill then FillMissing(t) else t;
    var names := if selection.Some? then selection.value else filled.columns;
    match Select(filled, names)
    case Err(unknown) => Err(unknown)
    case Ok(chosen) => Ok(Prune(chosen))
  }

  /** What main.py:24-45, followed by main.py:47-100, does with one file. */
  function ProcessUpload(u: Upload): Outcome
    requires Readable(u)
  {
    var ext := Extension(u.name);
    if !IsSupported(ext) then Unsupported(ext)
    else
      match Clean(u.content, u.fillMissing, u.selection)
      case Err(unknown) => UnknownColumns(unknown)
      case Ok(t) => Cleaned(t, DownloadFor(u.name, u.format))
  }

  /** main.py:24-45, with main.py:47-100 applied per file — every file in
      upload order, each through its own DataFrame. A skipped file does not
      stop the loop: the files after it are handled as if it had not been
      there. */
  method ProcessFiles(uploads: seq<Upload>) returns (outcomes: seq<Outcome>)
    requires forall k :: 0 <= k < |uploads| ==> Readable(uploads[k])
    ensures |outcomes| == |uploads|
    ensures forall k :: 0 <= k < |uploads| ==> outcomes[k] == ProcessUpload(uploads[k])
  {
    outcomes := [];
    for i := 0 to |uploads|
      invariant |outcomes| == i
      invariant forall k :: 0 <= k < i ==> outcomes[k] == ProcessUpload(uploads[k])
    {
      var u := uploads[i];
      var ext := Extension(u.name);
      if !IsSupported(ext) {
        outcomes := outcomes + [Unsupported(ext)];
        continue;
      }
      var df := new Frames.DataFrame(u.content);
      if u.fillMissing {
        df.FillMissing();
      }
      var names := if u.selection.Some? then u.selection.value else df.columns;
      var unknown := df.SelectColumns(names);
      if unknown != [] {
        outcomes := outcomes + [UnknownColumns(unknown)];
        continue;
      }
      df.DropEmptyRows();
      df.DropEmptyColumns();
      outcomes := outcomes + [Cleaned(df.Value(), DownloadFor(u.name, u.format))];
    }
  }

  /** main.py:25-28 — a file is skipped exactly when its name is neither
      `csv` nor `xlsx` and does not end in `.csv` or `.xlsx` (case
      matters), and the error names the text after the last dot. */
  lemma SkippedExactly(u: Upload)
    requires Readable(u)
    ensures ProcessUpload(u).Unsupported? <==>
      !(u.name == "csv" || u.name == "xlsx" || EndsWith(u.name, ".csv") || EndsWith(u.name, ".xlsx"))
    ensures ProcessUpload(u).Unsupported? ==>
      && ProcessUpload(u).ext == Extension(u.name)
      && Dot !in ProcessUpload(u).ext
      && EndsWith(u.name, ProcessUpload(u).ext)
      && (|ProcessUpload(u).ext| == |u.name| || u.name[|u.name| - |ProcessUpload(u).ext| - 1] == Dot)
  {
    var o := ProcessUpload(u);
    assert o.Unsupported? <==> !IsSupported(Extension(u.name));
    assert o.Unsupported? ==> o.ext == Extension(u.name);
    SupportedNames(u.name);
    ExtensionIsAfterLastDot(u.name);
  }

  /** Every label of a pruned table is a label of the table pruned. */
  lemma PruneLabels(t: Table)
    requires WellFormed(t)
    ensures forall c :: c in Prune(t).columns ==> c in t.columns
    ensures |Prune(t).rows| <= |t.rows|
  {
    DropEmptyRowsSpec(t);
    var u := DropEmptyRows(t);
    DropEmptyColumnsSpec(u);
    var p := Prune(t);
    forall c | c in p.columns ensures c in t.columns {
      var k :| 0 <= k < |p.columns| && p.columns[k] == c;
      assert c == u.columns[KeptColumns(u)[k]];
    }
  }

  /** main.py:42-61 — cleaning fails exactly when a picked label is not a
      column, naming exactly those labels; otherwise the cleaned table keeps
      only labels that were both picked and in the upload, has at most the
      upload's rows, holds no all-missing row or column, and is left as it
      is by pruning it again. */
  lemma CleanSpec(t: Table, fill: bool, selection: Option<seq<string>>)
    requires WellFormed(t)
    ensures Clean(t, fill, selection).Err? <==>
      selection.Some? && exists k :: 0 <= k < |selection.value| && selection.value[k] !in t.columns
    ensures Clean(t, fill, selection).Err? ==>
      forall x :: x in Clean(t, fill, selection).error <==> x in selection.value && x !in t.columns
    ensures Clean(t, fill, selection).Ok? ==>
      var r := Clean(t, fill, selection).value;
      && WellFormed(r)
      && NoEmptyRows(r)
      && NoEmptyColumns(r)
      && Prune(r) == r
      && |r.rows| <= |t.rows|
      && (forall c :: c in r.columns ==> c in t.columns)
      && (selection.Some? ==> forall c :: c in r.columns ==> c in selection.value)
  {
    FillMissingCells(t);
    var filled := if fill then FillMissing(t) else t;
    var names := if selection.Some? then selection.value else filled.columns;
    SelectSpec(filled, names);
    if Select(filled, names).Ok? {
      var chosen := Select(filled, names).value;
      PruneLeavesNoEmpty(chosen);
      PruneIdempotent(chosen);
      PruneLabels(chosen);
    }
  }

  /** With the multiselect left at its default (main.py:50) the selection
      changes nothing: the cleaned table is the pruned, possibly filled,
      upload. */
  lemma DefaultSelection(t: Table, fill: bool)
    requires WellFormed(t) && Distinct(t.columns)
    ensures WellFormed(FillMissing(t))
    ensures Clean(t, fill, None) == Ok(Prune(if fill then FillMissing(t) else t))
  {
    FillMissingCells(t);
    var filled := if fill then FillMissing(t) else t;
    SelectAll(filled);
  }

  /** A cleaned file is offered under its base name with the chosen
      format's suffix and MIME type, and came from a supported file. */
  lemma CleanedDownload(u: Upload)
    requires Readable(u)
    ensures ProcessUpload(u).Cleaned? ==>
      && IsSupported(Extension(u.name))
      && WellFormed(u.content)
      && ProcessUpload(u).download.fileName == BaseName(u.name) + [Dot] + Suffix(u.format)
      && Extension(ProcessUpload(u).download.fileName) == Suffix(u.format)
      && ProcessUpload(u).download.mime == Mime(u.format)
  {
  }

  /** The age column of the upload below: one present value, 30. */
  lemma AgeColumnMean(age: seq<Cell>)
    requires age == [Number(30.0), Missing, Missing]
    ensures AllNumbers(age) && PresentCount(age) > 0 && Mean(age) == 30.0
  {
    var one, two := age[..1], age[..2];
    assert two[..1] == one && one[..0] == [];
    assert PresentCount(one) == 1 && NumberSum(one) == 30.0;
    assert PresentCount(two) == 1 && NumberSum(two) == 30.0;
    assert age[..2] == two;
  }

  /** The cleaned table below has no all-missing row or column. */
  lemma ScenarioNothingEmpty(f: Table)
    requires f == Table(["name", "age"],
      [[Text("Alice"), Number(30.0)], [Text("Bob"), Number(30.0)], [Missing, Number(30.0)]])
    ensures WellFormed(f) && NoEmptyRows(f) && NoEmptyColumns(f)
  {
    assert IsPresent(f.rows[0][0]) && IsPresent(f.rows[1][0]) && IsPresent(f.rows[2][1]);
    assert IsPresent(Column(f, 0)[0]) && IsPresent(Column(f, 1)[0]);
  }

  /** The upload `name,age / Alice,30 / Bob, / ,` with "Fill missing
      values" ticked and every column kept. The fill runs before the prunes,
      so the last row, empty in the upload, has gained the age mean by the
      time rows are pruned and is kept: three rows come out, all aged 30. */
  lemma FillBeforePrune(t: Table)
    requires t == Table(["name", "age"],
      [[Text("Alice"), Number(30.0)], [Text("Bob"), Missing], [Missing, Missing]])
    ensures Clean(t, true, None) == Ok(Table(["name", "age"],
      [[Text("Alice"), Number(30.0)], [Text("Bob"), Number(30.0)], [Missing, Number(30.0)]]))
  {
    AgeColumnMean(Column(t, 1));
    var name := Column(t, 0);
    assert name[0] == Text("Alice") && !AllNumbers(name);
    FillMissingCells(t);
    var f := FillMissing(t);
    var expected := Table(["name", "age"],
      [[Text("Alice"), Number(30.0)], [Text("Bob"), Number(30.0)], [Missing, Number(30.0)]]);
    assert f.rows[0] == expected.rows[0];
    assert f.rows[1] == expected.rows[1];
    assert f.rows[2] == expected.rows[2];
    assert f == expected;
    DefaultSelection(t, true);
    ScenarioNothingEmpty(f);
    DropEmptyRowsNoop(f);
    DropEmptyColumnsNoop(f);
  }
}
