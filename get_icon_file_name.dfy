/** `getIconFileName(fileName)`: the icon shown for a non-image file, chosen by its extension
    as Node's (POSIX) `path.extname` reports it. */
module FileIcons {
  import opened Strings

  const PdfIcon: string := "vscode-icons:file-type-pdf2"
  const WordIcon: string := "vscode-icons:file-type-word"
  const ExcelIcon: string := "vscode-icons:file-type-excel"
  const DefaultIcon: string := "solar:document-bold"

  /** The path without its trailing `/` characters. */
  function TrimTrailingSlashes(p: string): (r: string)
    ensures r <= p
    ensures r == [] || r[|r| - 1] != '/'
  {
    if p != [] && p[|p| - 1] == '/' then TrimTrailingSlashes(p[..|p| - 1]) else p
  }

  /** The last path component, ignoring trailing slashes. */
  function Basename(p: string): (b: string)
    ensures '/' !in b
  {
    AfterLast(TrimTrailingSlashes(p), '/')
  }

  /** `path.extname(p)`: from the last `.` of the base name to its end; empty when the base
      name has no `.`, when its only leading `.` is that last one (a dot file such as `.pdf`),
      or when the base name is `..`. */
  function Extname(p: string): (ext: string)
    ensures ext == "" || (ext[0] == '.' && '.' !in ext[1..])
    ensures '/' !in ext
  {
    var base := Basename(p);
    var parts := Split(base, '.');
    if |parts| == 1 || (|parts| == 2 && parts[0] == "") || base == ".." then ""
    else
      var last := AfterLast(base, '.');
      AbsentFromSuffix(base, last, '/');
      assert ("." + last)[1..] == last;
      "." + last
  }

  /** A character missing from a text is missing from each of its suffixes. */
  lemma AbsentFromSuffix(s: string, t: string, c: char)
    requires c !in s && |t| <= |s| && s[|s| - |t|..] == t
    ensures c !in t
  {
    assert forall i :: 0 <= i < |t| ==> t[i] == s[|s| - |t| + i];
  }

  /** The switch of the source on the lower-cased extension. */
  function IconOf(ext: string): string {
    if ext == ".pdf" then PdfIcon
    else if ext == ".doc" || ext == ".docx" then WordIcon
    else if ext == ".xlsx" then ExcelIcon
    else DefaultIcon
  }

  function GetIconFileName(fileName: string): (icon: string)
    ensures icon in {PdfIcon, WordIcon, ExcelIcon, DefaultIcon}
  {
    IconOf(Lower(Extname(fileName)))
  }

  /** Splitting `stem.ext` on `.` when `ext` holds no `.`: the pieces of `stem`, then `ext`. */
  lemma {:induction false} SplitDotted(stem: string, ext: string, c: char)
    requires c !in ext
    ensures Split(stem + [c] + ext, c) == Split(stem, c) + [ext]
  {
    if stem == [] {
      assert [c] + ext == stem + [c] + ext;
      assert Split(ext, c) == [ext];
    } else {
      var whole := stem + [c] + ext;
      assert whole[0] == stem[0] && whole[1..] == stem[1..] + [c] + ext;
      SplitDotted(stem[1..], ext, c);
      var inner := Split(stem[1..], c);
      var rest := Split(whole[1..], c);
      assert rest == inner + [ext];
      if stem[0] != c {
        assert rest[0] == inner[0];
        assert rest[1..] == inner[1..] + [ext];
        assert Split(whole, c) == [[stem[0]] + inner[0]] + (inner[1..] + [ext]);
        assert Split(stem, c) == [[stem[0]] + inner[0]] + inner[1..];
      }
    }
  }

  /** A name `stem.ext` whose `ext` has no dot: only that last extension counts, so
      `a.pdf.txt` gives `.txt`. */
  lemma ExtnameOfDottedName(stem: string, ext: string)
    requires '.' !in ext && '/' !in stem && '/' !in ext
    requires stem != "" && stem != "."
    ensures Extname(stem + "." + ext) == "." + ext
  {
    var name := stem + "." + ext;
    PlainBasename(name);
    SplitDotted(stem, ext, '.');
    var inner := Split(stem, '.');
    var parts := inner + [ext];
    assert parts[|parts| - 1] == ext;
    if |inner| == 1 {
      SplitSingle(stem, '.');
      assert parts[0] == stem;
    }
    assert name != ".." by {
      assert |name| == 2 ==> name[..1] == stem;
    }
  }

  /** A name without `/` is its own base name. */
  lemma PlainBasename(name: string)
    requires '/' !in name
    ensures Basename(name) == name
  {
    if name != [] {
      assert name[|name| - 1] in name;
    }
  }

  /** A dot file has no extension: `.pdf` gives `""`. */
  lemma DotFileHasNoExtension(ext: string)
    requires '.' !in ext && '/' !in ext
    ensures Extname("." + ext) == ""
  {
    var name := "." + ext;
    PlainBasename(name);
    SplitDotted("", ext, '.');
    assert "" + "." + ext == name;
  }

  /** A name without a dot falls back to the generic icon. */
  lemma NoExtensionGivesDefault(name: string)
    requires '.' !in name
    ensures GetIconFileName(name) == DefaultIcon
  {
    var base := Basename(name);
    assert '.' !in base by {
      var t := TrimTrailingSlashes(name);
      assert base == t[|t| - |base|..];
    }
  }

  /** Lower-casing a dotted extension lower-cases what follows the dot. */
  lemma LowerDotted(ext: string)
    ensures Lower("." + ext) == "." + Lower(ext)
  {
    var l, r := Lower("." + ext), "." + Lower(ext);
    assert forall i :: 0 < i < |l| ==> ("." + ext)[i] == ext[i - 1];
    assert forall i :: 0 <= i < |l| ==> l[i] == r[i];
  }

  /** The icon of `stem.ext` is chosen by the lower-cased `ext` alone. */
  lemma DottedNameIcon(stem: string, ext: string)
    requires '.' !in ext && '/' !in stem && '/' !in ext
    requires stem != "" && stem != "."
    ensures GetIconFileName(stem + "." + ext) == IconOf("." + Lower(ext))
  {
    ExtnameOfDottedName(stem, ext);
    LowerDotted(ext);
  }

  /** The switch on a few lower-cased extensions. */
  lemma KnownIcons(e: string)
    ensures e == "pdf" ==> IconOf("." + e) == PdfIcon
    ensures e == "doc" || e == "docx" ==> IconOf("." + e) == WordIcon
    ensures e == "xls" ==> IconOf("." + e) == DefaultIcon
    ensures e == "xlsx" ==> IconOf("." + e) == ExcelIcon
  {
    if e == "doc" {
      assert "." + e == ".doc";
    } else if e == "docx" {
      assert "." + e == ".docx";
    } else if e == "xls" {
      assert ("." + e)[1] == 'x' && |"." + e| == 4;
    } else if e == "xlsx" {
      assert ("." + e)[1] == 'x' && |"." + e| == 5;
    }
  }

  /** Matching ignores case: `report.PDF`, `report.Pdf` and `report.pdf` all get the PDF icon. */
  lemma PdfInAnyCase(stem: string, ext: string)
    requires '/' !in stem && stem != "" && stem != "."
    requires Lower(ext) == "pdf"
    ensures GetIconFileName(stem + "." + ext) == PdfIcon
  {
    assert '.' !in ext && '/' !in ext by {
      assert forall i :: 0 <= i < |ext| ==> LowerChar(ext[i]) == "pdf"[i];
    }
    DottedNameIcon(stem, ext);
    KnownIcons(Lower(ext));
  }

  /** `.doc` and `.docx`, in any case, get the Word icon. */
  lemma WordInAnyCase(stem: string, ext: string)
    requires '/' !in stem && stem != "" && stem != "."
    requires Lower(ext) == "doc" || Lower(ext) == "docx"
    ensures GetIconFileName(stem + "." + ext) == WordIcon
  {
    assert '.' !in ext && '/' !in ext by {
      if Lower(ext) == "doc" {
        assert forall i :: 0 <= i < |ext| ==> LowerChar(ext[i]) == "doc"[i];
      } else {
        assert forall i :: 0 <= i < |ext| ==> LowerChar(ext[i]) == "docx"[i];
      }
    }
    DottedNameIcon(stem, ext);
    KnownIcons(Lower(ext));
  }

  /** `.xls`, in any case, is not in the switch. */
  lemma OldExcelGivesDefault(stem: string, ext: string)
    requires '/' !in stem && stem != "" && stem != "."
    requires Lower(ext) == "xls"
    ensures GetIconFileName(stem + "." + ext) == DefaultIcon
  {
    assert '.' !in ext && '/' !in ext by {
      assert forall i :: 0 <= i < |ext| ==> LowerChar(ext[i]) == "xls"[i];
    }
    DottedNameIcon(stem, ext);
    KnownIcons(Lower(ext));
  }

  /** `.xlsx`, in any case, gets the Excel icon. */
  lemma NewExcelGivesExcel(stem: string, ext: string)
    requires '/' !in stem && stem != "" && stem != "."
    requires Lower(ext) == "xlsx"
    ensures GetIconFileName(stem + "." + ext) == ExcelIcon
  {
    assert '.' !in ext && '/' !in ext by {
      assert forall i :: 0 <= i < |ext| ==> LowerChar(ext[i]) == "xlsx"[i];
    }
    DottedNameIcon(stem, ext);
    KnownIcons(Lower(ext));
  }
}
