/** What the generated LaTeX document looks like: where each line sits,
    how many `\usepackage` and `\usetikzlibrary` lines it has, that its
    lines are exactly the template's lines, and what happens to the code. */
module TemplateShape {
  import opened PyStr
  import opened CsvArgs
  import Mime
  import opened Template

  /** Where each part sits before the picture: the empty first line, the
      class line, `\usepackage{tikz}`, one line per package in order, the
      library line, the preamble line if any, and `\begin{document}`. */
  lemma PrologueLayout(opts: TikzOptions)
    ensures var pro, ps := Prologue(opts), opts.packages;
      && |pro| == 5 + |ps| + |PreambleLines(opts.preamble)|
      && pro[0] == ""
      && pro[1] == ClassLine(opts.format, opts.width, opts.height)
      && pro[2] == TikzPackageLine
      && (forall k :: 0 <= k < |ps| ==> pro[3 + k] == UsePackage(ps[k]))
      && pro[3 + |ps|] == LibraryLine(opts.libraries)
      && (opts.preamble.Some? ==> pro[4 + |ps|] == StripChars(opts.preamble.value, QuoteChars))
      && pro[|pro| - 1] == BeginDocument
  {
    var ps := opts.packages;
    var a1 := HeadLines(opts) + UsePackageLines(ps);
    var a2 := a1 + [LibraryLine(opts.libraries)];
    var a3 := a2 + PreambleLines(opts.preamble);
    forall k | 0 <= k < |ps| ensures a1[3 + k] == UsePackage(ps[k]) { }
    assert a2[3 + |ps|] == LibraryLine(opts.libraries);
    if opts.preamble.Some? {
      assert a3[4 + |ps|] == PreambleLines(opts.preamble)[0];
    }
  }

  /** The document is the prologue, then the picture: the opening carrying
      the first code line, the other code lines in order, and the closing
      `\end{tikzpicture}`, `\end{document}` and a last line of spaces. */
  lemma PictureLayout(opts: TikzOptions, code: string, linesep: string)
    requires linesep != []
    ensures var lines, body, n := DocumentLines(opts, code, linesep), IndentCode(code, linesep), |Prologue(opts)|;
      && |lines| == n + |body| + 3
      && lines[..n] == Prologue(opts)
      && lines[n] == BeginPicture(opts.scale) + body[0]
      && lines[n + 1..n + |body|] == body[1..]
      && lines[n + |body|..] == Epilogue
  {
    var body := IndentCode(code, linesep);
    Sections(Prologue(opts), BeginPicture(opts.scale) + body[0], body, Epilogue);
  }

  /** Positions in `pro`, an opening line, the rest of `body` and `epi`. */
  lemma Sections(pro: seq<string>, opening: string, body: seq<string>, epi: seq<string>)
    requires body != []
    ensures var lines, n := pro + [opening] + body[1..] + epi, |pro|;
      && |lines| == n + |body| + |epi|
      && lines[..n] == pro
      && lines[n] == opening
      && lines[n + 1..n + |body|] == body[1..]
      && lines[n + |body|..] == epi
  {
    var lines := pro + [opening] + body[1..] + epi;
    assert lines[..|pro|] == pro;
    assert lines[|pro| + 1..|pro| + |body|] == body[1..];
    assert lines[|pro| + |body|..] == epi;
  }

  /** The number of lines that start with `prefix`. */
  function CountPrefixed(lines: seq<string>, prefix: string): (n: nat)
    ensures n <= |lines|
  {
    if lines == [] then 0
    else (if StartsWith(lines[0], prefix) then 1 else 0) + CountPrefixed(lines[1..], prefix)
  }

  lemma {:induction false} CountAppend(xs: seq<string>, ys: seq<string>, prefix: string)
    ensures CountPrefixed(xs + ys, prefix) == CountPrefixed(xs, prefix) + CountPrefixed(ys, prefix)
    decreases |xs|
  {
    if xs != [] {
      assert (xs + ys)[0] == xs[0];
      assert (xs + ys)[1..] == xs[1..] + ys;
      CountAppend(xs[1..], ys, prefix);
    } else {
      assert xs + ys == ys;
    }
  }

  lemma {:induction false} CountNone(xs: seq<string>, prefix: string)
    requires forall k :: 0 <= k < |xs| ==> !StartsWith(xs[k], prefix)
    ensures CountPrefixed(xs, prefix) == 0
    decreases |xs|
  {
    if xs != [] {
      CountNone(xs[1..], prefix);
    }
  }

  /** A string that starts with `q` does not start with `p` when the two
      differ at a position both have. */
  lemma Diverge(s: string, p: string, q: string, i: nat)
    requires StartsWith(s, q) && i < |p| && i < |q| && p[i] != q[i]
    ensures !StartsWith(s, p)
  {
    assert s[i] == q[i];
  }

  lemma {:induction false} PackageLinesCount(ps: seq<string>)
    ensures CountPrefixed(UsePackageLines(ps), PackagePrefix) == |ps|
    ensures CountPrefixed(UsePackageLines(ps), LibraryPrefix) == 0
    decreases |ps|
  {
    if ps != [] {
      var u := UsePackage(ps[0]);
      assert StartsWith(u, PackagePrefix);
      Diverge(u, LibraryPrefix, PackagePrefix, 4);
      PackageLinesCount(ps[1..]);
    }
  }

  /** The code lines after the first start with the indent, so none of
      them is a package or library line. */
  lemma CodeTailCount(code: string, linesep: string, prefix: string)
    requires linesep != []
    requires prefix == PackagePrefix || prefix == LibraryPrefix
    ensures CountPrefixed(IndentCode(code, linesep)[1..], prefix) == 0
  {
    var body := IndentCode(code, linesep);
    CodeIndentation(code, linesep);
    forall k | 0 <= k < |body[1..]| ensures !StartsWith(body[1..][k], prefix) {
      assert body[1..][k] == body[k + 1];
      assert StartsWith(body[k + 1], " ");
      Diverge(body[k + 1], prefix, " ", 0);
    }
    CountNone(body[1..], prefix);
  }

  /** Neither `\begin{document}`, the picture opening nor the closing lines
      are package or library lines. */
  lemma FixedLinesCount(scale: string, first: string, prefix: string)
    requires prefix == PackagePrefix || prefix == LibraryPrefix
    ensures CountPrefixed([BeginDocument], prefix) == 0
    ensures CountPrefixed([BeginPicture(scale) + first], prefix) == 0
    ensures CountPrefixed(Epilogue, prefix) == 0
  {
    assert CountPrefixed([BeginDocument], prefix) == 0 by {
      Diverge(BeginDocument, prefix, "\\b", 1);
      CountSingle(BeginDocument, prefix);
    }
    assert CountPrefixed([BeginPicture(scale) + first], prefix) == 0 by {
      OpeningCount(scale, first, prefix);
    }
    assert CountPrefixed(Epilogue, prefix) == 0 by {
      EpilogueCount(prefix);
    }
  }

  lemma OpeningCount(scale: string, first: string, prefix: string)
    requires prefix == PackagePrefix || prefix == LibraryPrefix
    ensures CountPrefixed([BeginPicture(scale) + first], prefix) == 0
  {
    var opening := BeginPicture(scale) + first;
    var b := BeginPicture(scale);
    assert b[0] == '\\' && b[1] == 'b';
    assert opening[0] == b[0] && opening[1] == b[1];
    Diverge(opening, prefix, "\\b", 1);
    CountSingle(opening, prefix);
  }

  lemma EpilogueCount(prefix: string)
    requires prefix == PackagePrefix || prefix == LibraryPrefix
    ensures CountPrefixed(Epilogue, prefix) == 0
  {
    Diverge(Epilogue[0], prefix, "\\e", 1);
    Diverge(Epilogue[1], prefix, "\\e", 1);
    Diverge(Epilogue[2], prefix, " ", 0);
    CountNone(Epilogue, prefix);
  }

  lemma CountSingle(s: string, prefix: string)
    ensures CountPrefixed([s], prefix) == if StartsWith(s, prefix) then 1 else 0
  {
    assert [s][1..] == [];
  }

  /** The head: an empty line, the class line and `\usepackage{tikz}`. */
  lemma HeadLinesCount(opts: TikzOptions)
    ensures CountPrefixed(HeadLines(opts), PackagePrefix) == 1
    ensures CountPrefixed(HeadLines(opts), LibraryPrefix) == 0
  {
    var c := ClassLine(opts.format, opts.width, opts.height);
    ClassLineDensity(opts.format, opts.width, opts.height);
    Diverge(c, PackagePrefix, ClassPrefix, 1);
    Diverge(c, LibraryPrefix, ClassPrefix, 1);
    Diverge(TikzPackageLine, LibraryPrefix, PackagePrefix, 4);
    assert StartsWith(TikzPackageLine, PackagePrefix);
    assert HeadLines(opts) == [""] + [c] + [TikzPackageLine];
    forall prefix | prefix == PackagePrefix || prefix == LibraryPrefix
      ensures CountPrefixed(HeadLines(opts), prefix)
              == CountPrefixed([""], prefix) + CountPrefixed([c], prefix) + CountPrefixed([TikzPackageLine], prefix)
    {
      CountAppend([""] + [c], [TikzPackageLine], prefix);
      CountAppend([""], [c], prefix);
    }
    CountSingle("", PackagePrefix);
    CountSingle("", LibraryPrefix);
    CountSingle(c, PackagePrefix);
    CountSingle(c, LibraryPrefix);
    CountSingle(TikzPackageLine, PackagePrefix);
    CountSingle(TikzPackageLine, LibraryPrefix);
  }

  /** `\usepackage{tikz}` and one line per requested package, in order and
      without deduplication, are the package lines of the document (plus
      any the preamble writes itself). */
  lemma PackageLineCount(opts: TikzOptions, code: string, linesep: string)
    requires linesep != []
    ensures CountPrefixed(DocumentLines(opts, code, linesep), PackagePrefix)
            == 1 + |opts.packages| + CountPrefixed(PreambleLines(opts.preamble), PackagePrefix)
  {
    var p := PackagePrefix;
    var body := IndentCode(code, linesep);
    LineCounts(opts, code, linesep, p);
    assert CountPrefixed(HeadLines(opts), p) == 1 by { HeadLinesCount(opts); }
    assert CountPrefixed(UsePackageLines(opts.packages), p) == |opts.packages| by {
      PackageLinesCount(opts.packages);
    }
    assert CountPrefixed([LibraryLine(opts.libraries)], p) == 0 by { LibraryLineCounts(opts.libraries); }
    assert CountPrefixed([BeginDocument], p) == 0
        && CountPrefixed([BeginPicture(opts.scale) + body[0]], p) == 0
        && CountPrefixed(Epilogue, p) == 0 by {
      FixedLinesCount(opts.scale, body[0], p);
    }
    assert CountPrefixed(body[1..], p) == 0 by { CodeTailCount(code, linesep, p); }
  }

  /** Exactly one `\usetikzlibrary` line is emitted, whatever the library
      list (plus any the preamble writes itself). */
  lemma LibraryLineCount(opts: TikzOptions, code: string, linesep: string)
    requires linesep != []
    ensures CountPrefixed(DocumentLines(opts, code, linesep), LibraryPrefix)
            == 1 + CountPrefixed(PreambleLines(opts.preamble), LibraryPrefix)
  {
    var p := LibraryPrefix;
    var body := IndentCode(code, linesep);
    LineCounts(opts, code, linesep, p);
    assert CountPrefixed(HeadLines(opts), p) == 0 by { HeadLinesCount(opts); }
    assert CountPrefixed(UsePackageLines(opts.packages), p) == 0 by {
      PackageLinesCount(opts.packages);
    }
    assert CountPrefixed([LibraryLine(opts.libraries)], p) == 1 by { LibraryLineCounts(opts.libraries); }
    assert CountPrefixed([BeginDocument], p) == 0
        && CountPrefixed([BeginPicture(opts.scale) + body[0]], p) == 0
        && CountPrefixed(Epilogue, p) == 0 by {
      FixedLinesCount(opts.scale, body[0], p);
    }
    assert CountPrefixed(body[1..], p) == 0 by { CodeTailCount(code, linesep, p); }
  }

  /** The library line is a library line and no package line. */
  lemma LibraryLineCounts(libs: seq<string>)
    ensures CountPrefixed([LibraryLine(libs)], PackagePrefix) == 0
    ensures CountPrefixed([LibraryLine(libs)], LibraryPrefix) == 1
  {
    Diverge(LibraryLine(libs), PackagePrefix, LibraryPrefix, 4);
    CountSingle(LibraryLine(libs), PackagePrefix);
    CountSingle(LibraryLine(libs), LibraryPrefix);
  }

  /** The count over the document, part by part. */
  lemma LineCounts(opts: TikzOptions, code: string, linesep: string, prefix: string)
    requires linesep != []
    ensures var body := IndentCode(code, linesep);
      CountPrefixed(DocumentLines(opts, code, linesep), prefix)
      == CountPrefixed(HeadLines(opts), prefix)
         + CountPrefixed(UsePackageLines(opts.packages), prefix)
         + CountPrefixed([LibraryLine(opts.libraries)], prefix)
         + CountPrefixed(PreambleLines(opts.preamble), prefix)
         + CountPrefixed([BeginDocument], prefix)
         + CountPrefixed([BeginPicture(opts.scale) + body[0]], prefix)
         + CountPrefixed(body[1..], prefix)
         + CountPrefixed(Epilogue, prefix)
  {
    var body := IndentCode(code, linesep);
    var a1 := HeadLines(opts) + UsePackageLines(opts.packages);
    var a2 := a1 + [LibraryLine(opts.libraries)];
    var a3 := a2 + PreambleLines(opts.preamble);
    var a4 := a3 + [BeginDocument];
    var a5 := a4 + [BeginPicture(opts.scale) + body[0]];
    var a6 := a5 + body[1..];
    CountAppend(HeadLines(opts), UsePackageLines(opts.packages), prefix);
    CountAppend(a1, [LibraryLine(opts.libraries)], prefix);
    CountAppend(a2, PreambleLines(opts.preamble), prefix);
    CountAppend(a3, [BeginDocument], prefix);
    CountAppend(a4, [BeginPicture(opts.scale) + body[0]], prefix);
    CountAppend(a5, body[1..], prefix);
    CountAppend(a6, Epilogue, prefix);
  }

  /** The density hint goes exactly to the formats published as PNG or
      JPEG images. */
  lemma RasterIffBitmapMime(fmt: string)
    ensures IsRasterFormat(fmt) <==> Mime.MimeType(fmt) == "image/png" || Mime.MimeType(fmt) == "image/jpeg"
  {
    Mime.SubtypeOf(fmt);
    assert "image/png"[6..] == "png" && "image/jpeg"[6..] == "jpeg";
  }

  /** The library line names the libraries joined by commas; reading its
      argument back with `split_csv_args` gives the same list. */
  lemma LibraryLineArgument(libs: seq<string>)
    requires forall l :: l in libs ==> IsField(l)
    ensures var line := LibraryLine(libs);
      StartsWith(line, LibraryPrefix) && EndsWith(line, "}")
      && line[|LibraryPrefix|..|line| - 1] == Join(libs, ",")
      && SplitCsvArgs(line[|LibraryPrefix|..|line| - 1]) == libs
  {
    var j := Join(libs, ",");
    var line := LibraryLine(libs);
    assert line == LibraryPrefix + (j + "}");
    assert line[..|LibraryPrefix|] == LibraryPrefix;
    assert line[|LibraryPrefix|..|line| - 1] == j;
    SplitCsvArgsJoin(libs);
  }

  /** With no library the line is still emitted, as `\usetikzlibrary{}`. */
  lemma EmptyLibraryLine()
    ensures LibraryLine([]) == "\\usetikzlibrary{}"
  {
  }

  /** Removes the four-space indent from every line (a shorter line is
      emptied). */
  function Dedent(lines: seq<string>): (r: seq<string>)
    ensures |r| == |lines|
    ensures forall k :: 0 <= k < |lines| && |lines[k]| >= 4 ==> r[k] == lines[k][4..]
  {
    if lines == [] then []
    else [if |lines[0]| >= 4 then lines[0][4..] else []] + Dedent(lines[1..])
  }

  /** Removing the indent of trimmed lines gives back the lines. */
  lemma DedentIndent(pieces: seq<string>)
    requires forall k :: 0 <= k < |pieces| ==> Strip(pieces[k]) == pieces[k]
    ensures Dedent(IndentLines(pieces)) == pieces
  {
    var r := Dedent(IndentLines(pieces));
    forall k | 0 <= k < |pieces| ensures r[k] == pieces[k] {
      IndentLineAt(pieces, k);
    }
  }

  /** The code lines keep their number and their order: for code whose
      lines carry no surrounding whitespace, removing the indent and joining
      with the line separator gives back the code. */
  lemma CodeRoundTrip(code: string, linesep: string)
    requires linesep != []
    requires forall k :: 0 <= k < |Split(code, linesep)| ==> Strip(Split(code, linesep)[k]) == Split(code, linesep)[k]
    ensures Join(Dedent(IndentCode(code, linesep)), linesep) == code
  {
    DedentIndent(Split(code, linesep));
    JoinSplit(code, linesep);
  }

  /** No line holds a line break. */
  predicate NoBreaks(lines: seq<string>)
  {
    forall k :: 0 <= k < |lines| ==> '\n' !in lines[k]
  }

  lemma NoBreaksAppend(xs: seq<string>, ys: seq<string>)
    requires NoBreaks(xs) && NoBreaks(ys)
    ensures NoBreaks(xs + ys)
  {
    forall k | 0 <= k < |xs + ys| ensures '\n' !in (xs + ys)[k] {
      if k >= |xs| {
        assert (xs + ys)[k] == ys[k - |xs|];
      }
    }
  }

  /** No option text holds a line break. */
  predicate SingleLineOptions(opts: TikzOptions)
  {
    && '\n' !in opts.scale && '\n' !in opts.width && '\n' !in opts.height
    && NoBreaks(opts.packages) && NoBreaks(opts.libraries)
    && (opts.preamble.Some? ==> '\n' !in opts.preamble.value)
  }

  /** Split at line breaks, the generated document is exactly its template
      lines, as long as the option text holds no line break and no piece of
      the code split at its line separator holds one (`CodePiecesSingle`
      gives this for `\n` and for any code without `\n`). */
  lemma DocumentSplitsIntoLines(opts: TikzOptions, code: string, linesep: string)
    requires linesep != []
    requires SingleLineOptions(opts)
    requires NoBreaks(Split(code, linesep))
    ensures Split(Join(DocumentLines(opts, code, linesep), "\n"), "\n") == DocumentLines(opts, code, linesep)
  {
    DocumentLinesSingle(opts, code, linesep);
    SplitJoin(DocumentLines(opts, code, linesep), '\n');
  }

  /** No line of the document holds a line break. */
  lemma DocumentLinesSingle(opts: TikzOptions, code: string, linesep: string)
    requires linesep != []
    requires SingleLineOptions(opts)
    requires NoBreaks(Split(code, linesep))
    ensures NoBreaks(DocumentLines(opts, code, linesep))
  {
    var body := IndentCode(code, linesep);
    PrologueSingle(opts);
    CodeLinesSingle(code, linesep);
    assert '\n' !in body[0];
    FixedLinesSingle(opts.scale);
    SectionsSingle(Prologue(opts), BeginPicture(opts.scale) + body[0], body, Epilogue);
  }

  /** The fixed lines hold no line break. */
  lemma FixedLinesSingle(scale: string)
    requires '\n' !in scale
    ensures '\n' !in BeginPicture(scale)
    ensures '\n' !in BeginDocument
    ensures NoBreaks(Epilogue)
  {
    var opening := "\\begin{tikzpicture}[scale=";
    assert forall i :: 0 <= i < |opening| ==> opening[i] != '\n';
    assert forall i :: 0 <= i < |BeginDocument| ==> BeginDocument[i] != '\n';
  }

  lemma SectionsSingle(pro: seq<string>, opening: string, body: seq<string>, epi: seq<string>)
    requires body != []
    requires NoBreaks(pro) && '\n' !in opening && NoBreaks(body) && NoBreaks(epi)
    ensures NoBreaks(pro + [opening] + body[1..] + epi)
  {
    assert NoBreaks(body[1..]) by {
      forall k | 0 <= k < |body[1..]| ensures '\n' !in body[1..][k] {
        assert body[1..][k] == body[k + 1];
      }
    }
    NoBreaksAppend(pro, [opening]);
    NoBreaksAppend(pro + [opening], body[1..]);
    NoBreaksAppend(pro + [opening] + body[1..], epi);
  }

  lemma PrologueSingle(opts: TikzOptions)
    requires SingleLineOptions(opts)
    ensures NoBreaks(Prologue(opts))
  {
    var a0 := HeadLines(opts);
    var a1 := a0 + UsePackageLines(opts.packages);
    var a2 := a1 + [LibraryLine(opts.libraries)];
    var a3 := a2 + PreambleLines(opts.preamble);
    assert NoBreaks(a0) by { HeadLinesSingle(opts); }
    assert NoBreaks(UsePackageLines(opts.packages)) by { PackageLinesSingle(opts.packages); }
    NoBreaksAppend(a0, UsePackageLines(opts.packages));
    assert NoBreaks([LibraryLine(opts.libraries)]) by { LibraryLineSingle(opts.libraries); }
    NoBreaksAppend(a1, [LibraryLine(opts.libraries)]);
    assert NoBreaks(PreambleLines(opts.preamble)) by {
      if opts.preamble.Some? {
        StripKeepsAbsent(opts.preamble.value, QuoteChars, '\n');
      }
    }
    NoBreaksAppend(a2, PreambleLines(opts.preamble));
    assert NoBreaks([BeginDocument]) by { FixedLinesSingle(""); }
    NoBreaksAppend(a3, [BeginDocument]);
  }

  lemma HeadLinesSingle(opts: TikzOptions)
    requires '\n' !in opts.width && '\n' !in opts.height
    ensures NoBreaks(HeadLines(opts))
  {
    var c := ClassLine(opts.format, opts.width, opts.height);
    var hint := if IsRasterFormat(opts.format) then DensityHint else "";
    assert c == ClassPrefix + hint + ("size=" + opts.width + "x" + opts.height + ",outext=.png") + ClassSuffix;
    assert forall i :: 0 <= i < |ClassPrefix| ==> ClassPrefix[i] != '\n';
    assert forall i :: 0 <= i < |hint| ==> hint[i] != '\n';
    assert forall i :: 0 <= i < |ClassSuffix| ==> ClassSuffix[i] != '\n';
    assert forall i :: 0 <= i < |TikzPackageLine| ==> TikzPackageLine[i] != '\n';
  }

  lemma PackageLinesSingle(ps: seq<string>)
    requires NoBreaks(ps)
    ensures NoBreaks(UsePackageLines(ps))
  {
    forall k | 0 <= k < |ps| ensures '\n' !in UsePackageLines(ps)[k] {
      assert UsePackageLines(ps)[k] == PackagePrefix + ps[k] + "}";
    }
  }

  lemma LibraryLineSingle(libs: seq<string>)
    requires NoBreaks(libs)
    ensures '\n' !in LibraryLine(libs)
  {
    JoinMember(libs, ",", '\n');
  }

  /** The pieces of the code hold no line break when the code holds none
      beyond its line separators. */
  lemma CodePiecesSingle(code: string, linesep: string)
    requires linesep != []
    requires linesep == "\n" || '\n' !in code
    ensures NoBreaks(Split(code, linesep))
  {
    var pieces := Split(code, linesep);
    if linesep == "\n" {
      SplitPiecesFree(code, linesep);
      forall k | 0 <= k < |pieces| ensures '\n' !in pieces[k] {
        ContainsChar(pieces[k], '\n');
      }
    } else {
      JoinSplit(code, linesep);
      JoinMember(pieces, linesep, '\n');
    }
  }

  /** Trimming and indenting never introduces a line break. */
  lemma IndentLinesSingle(pieces: seq<string>)
    requires NoBreaks(pieces)
    ensures NoBreaks(IndentLines(pieces))
  {
    forall k | 0 <= k < |pieces| ensures '\n' !in IndentLines(pieces)[k] {
      IndentLineAt(pieces, k);
      StripKeepsAbsent(pieces[k], Whitespace, '\n');
    }
  }

  lemma CodeLinesSingle(code: string, linesep: string)
    requires linesep != []
    requires NoBreaks(Split(code, linesep))
    ensures NoBreaks(IndentCode(code, linesep))
  {
    IndentLinesSingle(Split(code, linesep));
  }
}
