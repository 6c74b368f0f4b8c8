/** How the uploaded file's name is taken apart: the extension that decides
    whether the file is read (main.py:25-26) and the base name that the
    download is named after (main.py:83, 90, 98). Both come from Python's
    `str.split('.')`. */
module FileNames {

  const Dot: char := '.'

  /** Python's `s.split(sep)`: the pieces between the occurrences of `sep`;
      there is always at least one piece, and no piece holds `sep`. */
  function Split(s: string, sep: char): (parts: seq<string>)
    ensures |parts| >= 1
    ensures forall k :: 0 <= k < |parts| ==> sep !in parts[k]
  {
    if s == [] then [""]
    else
      var rest := Split(s[1..], sep);
      if s[0] == sep then [""] + rest
      else [[s[0]] + rest[0]] + rest[1..]
  }

  /** Python's `sep.join(parts)`. */
  function Join(parts: seq<string>, sep: char): string {
    if parts == [] then ""
    else if |parts| == 1 then parts[0]
    else parts[0] + [sep] + Join(parts[1..], sep)
  }

  /** Splitting and joining again gives the original text. */
  lemma {:induction false} JoinSplit(s: string, sep: char)
    ensures Join(Split(s, sep), sep) == s
  {
    if s != [] {
      var rest := Split(s[1..], sep);
      JoinSplit(s[1..], sep);
      if s[0] == sep {
        assert Split(s, sep) == [""] + rest;
        assert ([""] + rest)[1..] == rest;
      } else {
        var parts := [[s[0]] + rest[0]] + rest[1..];
        assert Split(s, sep) == parts;
        if |rest| == 1 {
          assert Join(rest, sep) == rest[0];
        } else {
          assert parts[1..] == rest[1..];
          assert Join(rest, sep) == rest[0] + [sep] + Join(rest[1..], sep);
        }
      }
    }
  }

  /** Joining several pieces puts `sep` right before the last one. */
  lemma {:induction false} JoinLast(parts: seq<string>, sep: char)
    requires |parts| >= 2
    ensures Join(parts, sep) == Join(parts[..|parts| - 1], sep) + [sep] + parts[|parts| - 1]
  {
    if |parts| > 2 {
      var tail := parts[1..];
      JoinLast(tail, sep);
      assert tail[..|tail| - 1] == parts[..|parts| - 1][1..];
      assert tail[|tail| - 1] == parts[|parts| - 1];
    } else {
      assert parts[..1] == [parts[0]];
      assert parts[1..] == [parts[1]];
    }
  }

  /** Splitting text without `sep` gives that text as the only piece. */
  lemma {:induction false} SplitNoSep(s: string, sep: char)
    requires sep !in s
    ensures Split(s, sep) == [s]
  {
    if s != [] {
      SplitNoSep(s[1..], sep);
      assert [s[0]] + s[1..] == s;
    }
  }

  /** Splitting `a sep b` where neither part holds `sep` gives the two parts. */
  lemma {:induction false} SplitPair(a: string, b: string, sep: char)
    requires sep !in a && sep !in b
    ensures Split(a + [sep] + b, sep) == [a, b]
  {
    var s := a + [sep] + b;
    if a == [] {
      assert s[1..] == b;
      SplitNoSep(b, sep);
    } else {
      assert s[1..] == a[1..] + [sep] + b;
      SplitPair(a[1..], b, sep);
      assert [a[0]] + a[1..] == a;
    }
  }

  /** main.py:25 — `file.name.split(".")[-1]`. */
  function Extension(name: string): string {
    var parts := Split(name, Dot);
    parts[|parts| - 1]
  }

  /** main.py:83 — `file.name.split('.')[0]`. */
  function BaseName(name: string): string {
    Split(name, Dot)[0]
  }

  /** main.py:26 — the only extensions the loop reads, compared exactly. */
  predicate IsSupported(ext: string) {
    ext == "csv" || ext == "xlsx"
  }

  predicate EndsWith(s: string, suffix: string) {
    |suffix| <= |s| && s[|s| - |suffix|..] == suffix
  }

  predicate StartsWith(s: string, prefix: string) {
    |prefix| <= |s| && s[..|prefix|] == prefix
  }

  /** The extension is the text after the last dot of the name, or the whole
      name when it has no dot. */
  lemma ExtensionIsAfterLastDot(name: string)
    ensures Dot !in Extension(name)
    ensures EndsWith(name, Extension(name))
    ensures Dot in name ==> |Extension(name)| < |name| && name[|name| - |Extension(name)| - 1] == Dot
    ensures Dot !in name ==> Extension(name) == name
  {
    var parts := Split(name, Dot);
    var e := parts[|parts| - 1];
    assert Dot !in e;
    JoinSplit(name, Dot);
    if |parts| == 1 {
      assert name == Join(parts, Dot) == e;
    } else {
      JoinLast(parts, Dot);
      var front := Join(parts[..|parts| - 1], Dot);
      assert name == front + [Dot] + e;
      assert |name| == |front| + 1 + |e|;
      assert name[|front|] == Dot;
      assert name[|name| - |e|..] == e;
    }
  }

  /** The base name is the text before the first dot of the name, or the
      whole name when it has no dot. */
  lemma BaseNameIsBeforeFirstDot(name: string)
    ensures Dot !in BaseName(name)
    ensures StartsWith(name, BaseName(name))
    ensures Dot in name ==> |BaseName(name)| < |name| && name[|BaseName(name)|] == Dot
    ensures Dot !in name ==> BaseName(name) == name
  {
    var parts := Split(name, Dot);
    var b := parts[0];
    JoinSplit(name, Dot);
    if |parts| == 1 {
      assert name == b;
    } else {
      assert name == b + [Dot] + Join(parts[1..], Dot);
      assert name[..|b|] == b;
    }
  }

  /** A dot-free suffix of `s` that follows a dot (or is all of `s`) is the
      extension. */
  lemma ExtensionUnique(s: string, e: string)
    requires Dot !in e && EndsWith(s, e)
    requires |e| == |s| || s[|s| - |e| - 1] == Dot
    ensures Extension(s) == e
  {
    ExtensionIsAfterLastDot(s);
    assert s[|s| - |Extension(s)|..] == Extension(s);
  }

  /** A dot-free prefix of `s` that is followed by a dot (or is all of `s`)
      is the base name. */
  lemma BaseNameUnique(s: string, b: string)
    requires Dot !in b && StartsWith(s, b)
    requires |b| == |s| || s[|b|] == Dot
    ensures BaseName(s) == b
  {
    BaseNameIsBeforeFirstDot(s);
    assert s[..|BaseName(s)|] == BaseName(s);
  }

  /** A name ending in `.` followed by a supported extension is read. */
  lemma DottedSuffixSupported(name: string, ext: string)
    requires IsSupported(ext) && EndsWith(name, [Dot] + ext)
    ensures Extension(name) == ext
  {
    assert name[|name| - |ext|..] == ([Dot] + ext)[1..];
    assert name[|name| - |ext| - 1] == ([Dot] + ext)[0];
    ExtensionUnique(name, ext);
  }

  /** A supported extension comes from the whole name or a dotted suffix. */
  lemma SupportedExtensionShape(name: string)
    requires IsSupported(Extension(name))
    ensures name == Extension(name) || EndsWith(name, [Dot] + Extension(name))
  {
    ExtensionIsAfterLastDot(name);
    var e := Extension(name);
    if |e| < |name| {
      assert name[|name| - |e| - 1..] == [name[|name| - |e| - 1]] + name[|name| - |e|..];
    } else {
      assert name[|name| - |e|..] == name;
    }
  }

  /** A file is read exactly when its name is `csv` or `xlsx` on its own, or
      ends in `.csv` or `.xlsx`, with that exact case. */
  lemma SupportedNames(name: string)
    ensures IsSupported(Extension(name)) <==>
      (name == "csv" || name == "xlsx" || EndsWith(name, ".csv") || EndsWith(name, ".xlsx"))
  {
    if name == "csv" || name == "xlsx" {
      ExtensionUnique(name, name);
    } else if EndsWith(name, ".csv") {
      DottedSuffixSupported(name, "csv");
    } else if EndsWith(name, ".xlsx") {
      DottedSuffixSupported(name, "xlsx");
    } else if IsSupported(Extension(name)) {
      SupportedExtensionShape(name);
    }
  }
}
