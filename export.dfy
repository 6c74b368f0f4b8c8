/** The download offered for the cleaned table (main.py:79-100): the radio
    choice decides the file name's suffix and the MIME type, and the file
    name starts with the uploaded file's base name. The bytes themselves
    (`to_json`, `to_excel`, `to_csv`) are not modelled. */
module Export {
  import opened FileNames

  /** The three options of the radio at main.py:72-78. */
  datatype Format = Json | Excel | Csv

  function Suffix(f: Format): string {
    match f
    case Json => "json"
    case Excel => "xlsx"
    case Csv => "csv"
  }

  function Mime(f: Format): string {
    match f
    case Json => "application/json"
    case Excel => "application/vnd.openxmlformats-officedocument.spreadsheetml.sheet"
    case Csv => "text/csv"
  }

  /** The `file_name` and `mime` handed to `st.download_button`. */
  datatype Download = Download(fileName: string, mime: string)

  /** main.py:79-100 — `f"{file.name.split('.')[0]}.<suffix>"` with the
      format's MIME type. Read back the way main.py:25 and main.py:83 read a
      name, the download's extension is the format's suffix and its base
      name is the upload's. */
  function DownloadFor(name: string, f: Format): (d: Download)
    ensures Extension(d.fileName) == Suffix(f)
    ensures BaseName(d.fileName) == BaseName(name)
    ensures d.mime == Mime(f)
  {
    BaseNameIsBeforeFirstDot(name);
    SplitPair(BaseName(name), Suffix(f), Dot);
    Download(BaseName(name) + [Dot] + Suffix(f), Mime(f))
  }

  /** The three branches of main.py:79-100 written out. */
  lemma DownloadTable(name: string)
    ensures DownloadFor(name, Json) == Download(BaseName(name) + ".json", "application/json")
    ensures DownloadFor(name, Excel) ==
      Download(BaseName(name) + ".xlsx", "application/vnd.openxmlformats-officedocument.spreadsheetml.sheet")
    ensures DownloadFor(name, Csv) == Download(BaseName(name) + ".csv", "text/csv")
  {
  }

  /** Uploading a download again: the Excel and CSV downloads pass the
      extension test of main.py:26, the JSON download does not. */
  lemma DownloadReadBack(name: string, f: Format)
    ensures IsSupported(Extension(DownloadFor(name, f).fileName)) <==> f != Json
  {
  }

  /** The base name stops at the first dot, so a name with several dots
      loses more than its extension: `sales.2024.csv` downloads as
      `sales.csv`, not `sales.2024.csv`. */
  lemma FirstDotExample(name: string)
    requires name == "sales.2024.csv"
    ensures Extension(name) == "csv"
    ensures BaseName(name) == "sales"
    ensures DownloadFor(name, Csv).fileName == "sales.csv"
  {
    assert name[..5] == "sales" && name[5] == Dot;
    BaseNameUnique(name, "sales");
    assert name[|name| - 3..] == "csv" && name[|name| - 4] == Dot;
    ExtensionUnique(name, "csv");
  }
}
