/** The LaTeX source that the `tikz` magic writes to `tikz.tex`: a
    `standalone` document whose class options carry the output size (and a
    rasterisation density for bitmap formats), followed by the requested
    packages, the TikZ libraries, the preamble and the user's code inside a
    `tikzpicture`. */
module Template {
  import opened PyStr
  import opened CsvArgs

  datatype Option<T> = None | Some(value: T)

  /** The parsed options of one invocation. `scale`, `width` and `height`
      are the text that is spliced into the template. */
  datatype TikzOptions = TikzOptions(
    scale: string,
    width: string,
    height: string,
    format: string,
    preamble: Option<string>,
    packages: seq<string>,
    libraries: seq<string>)

  /** Reading the options of the magic: the size must split into exactly
      two names, and the package and library options are split into names.
      The preamble always has a value, since its default is the empty
      string. */
  function ReadOptions(scale: string, size: string, format: string, preamble: string,
                       library: string, package: string): (r: Result<TikzOptions, UnpackError>)
    ensures r.Ok? <==> |SplitCsvArgs(size)| == 2
    ensures r.Err? ==> r.error == WrongFieldCount(|SplitCsvArgs(size)|)
    ensures r.Ok? ==> ParseSize(size) == Ok((r.value.width, r.value.height))
    ensures r.Ok? ==> IsField(r.value.width) && IsField(r.value.height)
    ensures r.Ok? ==> r.value.scale == scale && r.value.format == format
    ensures r.Ok? ==> r.value.preamble == Some(preamble)
    ensures r.Ok? ==> r.value.packages == SplitCsvArgs(package) && r.value.libraries == SplitCsvArgs(library)
    ensures r.Ok? ==> forall p :: p in r.value.packages + r.value.libraries ==> IsField(p)
  {
    match ParseSize(size)
    case Err(e) => Err(e)
    case Ok(wh) =>
      Ok(TikzOptions(scale, wh.0, wh.1, format, Some(preamble),
                     SplitCsvArgs(package), SplitCsvArgs(library)))
  }

  /** The formats produced by rasterising the PDF. */
  predicate IsRasterFormat(fmt: string)
  {
    fmt == "png" || fmt == "jpg" || fmt == "jpeg"
  }

  const ClassPrefix := "\\documentclass[convert={"
  const ClassSuffix := "},border=0pt]{standalone}"
  const DensityHint := "density=300,"
  const TikzPackageLine := "\\usepackage{tikz}"
  const PackagePrefix := "\\usepackage{"
  const LibraryPrefix := "\\usetikzlibrary{"
  const BeginDocument := "\\begin{document}"
  const Epilogue := ["\\end{tikzpicture}", "\\end{document}", "        "]

  /** The part of the class options that fixes the output size. */
  function SizeOption(width: string, height: string): string
  {
    "size=" + width + "x" + height + ",outext=.png"
  }

  /** The `\documentclass` line: a `standalone` document converted to an
      image of the given size, with a 300 dpi density for raster formats. */
  function ClassLine(fmt: string, width: string, height: string): string
  {
    ClassPrefix + (if IsRasterFormat(fmt) then DensityHint else "") + SizeOption(width, height) + ClassSuffix
  }

  /** The class line carries the density hint, right after the opening
      of the converter options, exactly for raster formats. */
  lemma ClassLineDensity(fmt: string, width: string, height: string)
    ensures var r := ClassLine(fmt, width, height);
      StartsWith(r, ClassPrefix) && (IsRasterFormat(fmt) <==> StartsWith(r[|ClassPrefix|..], DensityHint))
  {
    var hint := if IsRasterFormat(fmt) then DensityHint else "";
    var size := SizeOption(width, height);
    var rest := hint + size + ClassSuffix;
    assert ClassLine(fmt, width, height) == ClassPrefix + rest;
    assert rest[..|hint|] == hint;
    assert size[0] == 's' && DensityHint[0] == 'd';
    assert rest[|hint|] == 's';
  }

  /** The class line always carries the size option and ends with the
      border option and the `standalone` class. */
  lemma ClassLineSize(fmt: string, width: string, height: string)
    ensures var r := ClassLine(fmt, width, height);
      Contains(r, SizeOption(width, height)) && EndsWith(r, ClassSuffix)
  {
    var hint := if IsRasterFormat(fmt) then DensityHint else "";
    var size := SizeOption(width, height);
    var r := ClassLine(fmt, width, height);
    assert r == (ClassPrefix + hint) + (size + ClassSuffix);
    assert r[|ClassPrefix| + |hint|..][..|size|] == size;
    assert OccursAt(r, size, |ClassPrefix| + |hint|);
  }

  function UsePackage(p: string): string
  {
    PackagePrefix + p + "}"
  }

  /** One `\usepackage` line per requested package, in order. */
  function UsePackageLines(ps: seq<string>): (r: seq<string>)
    ensures |r| == |ps|
    ensures forall k :: 0 <= k < |ps| ==> r[k] == UsePackage(ps[k])
  {
    if ps == [] then [] else [UsePackage(ps[0])] + UsePackageLines(ps[1..])
  }

  /** The single `\usetikzlibrary` line, naming all libraries separated by
      commas (possibly none). */
  function LibraryLine(libs: seq<string>): string
  {
    LibraryPrefix + Join(libs, ",") + "}"
  }

  const QuoteChars: set<char> := {'\'', '"'}

  /** The preamble line, if there is a preamble: the text with every
      leading and every trailing quote character removed. */
  function PreambleLines(preamble: Option<string>): (r: seq<string>)
    ensures |r| == if preamble.Some? then 1 else 0
  {
    match preamble
    case None => []
    case Some(p) => [StripChars(p, QuoteChars)]
  }

  /** The preamble line keeps the preamble's interior unchanged, has lost
      every quote character at both ends, and is empty exactly when the
      preamble is made of quote characters only. */
  lemma PreambleContent(p: string)
    ensures var t, o := PreambleLines(Some(p))[0], StripOffset(p, QuoteChars);
      && o + |t| <= |p|
      && AllIn(p[..o], QuoteChars) && p[o..o + |t|] == t && AllIn(p[o + |t|..], QuoteChars)
      && (t != [] ==> t[0] !in QuoteChars && t[|t| - 1] !in QuoteChars)
      && (t == [] <==> AllIn(p, QuoteChars))
  {
    StripAllIn(p, QuoteChars);
  }

  /** `'    ' + line.strip()` */
  function Indent(line: string): string
  {
    "    " + Strip(line)
  }

  /** `'    ' + line.strip()` for each line. */
  function IndentLines(pieces: seq<string>): (r: seq<string>)
    ensures |r| == |pieces|
  {
    if pieces == [] then [] else [Indent(pieces[0])] + IndentLines(pieces[1..])
  }

  /** Line `k` of the indented code is piece `k`, trimmed, behind four spaces. */
  lemma {:induction false} IndentLineAt(pieces: seq<string>, k: nat)
    requires k < |pieces|
    ensures IndentLines(pieces)[k] == Indent(pieces[k])
    decreases k
  {
    if k > 0 {
      IndentLineAt(pieces[1..], k - 1);
      assert IndentLines(pieces)[k] == IndentLines(pieces[1..])[k - 1];
      assert pieces[1..][k - 1] == pieces[k];
    }
  }

  /** The user's code, split at the line separator, each line trimmed and
      indented by four spaces. */
  function IndentCode(code: string, linesep: string): (r: seq<string>)
    requires linesep != []
    ensures |r| == |Split(code, linesep)| && |r| >= 1
  {
    IndentLines(Split(code, linesep))
  }

  /** Every code line is the trimmed source line behind exactly four
      spaces: after the indent comes neither a space nor other whitespace. */
  lemma CodeIndentation(code: string, linesep: string)
    requires linesep != []
    ensures var r := IndentCode(code, linesep);
      forall k :: 0 <= k < |r| ==>
        && r[k] == "    " + Strip(Split(code, linesep)[k])
        && r[k][..4] == "    "
        && (|r[k]| > 4 ==> r[k][4] !in Whitespace && r[k][|r[k]| - 1] !in Whitespace)
  {
    var pieces := Split(code, linesep);
    forall k | 0 <= k < |pieces|
      ensures IndentLines(pieces)[k] == Indent(pieces[k])
      ensures IndentLines(pieces)[k][..4] == "    "
      ensures var line := IndentLines(pieces)[k];
        |line| > 4 ==> line[4] !in Whitespace && line[|line| - 1] !in Whitespace
    {
      IndentLineAt(pieces, k);
      IndentedLine(pieces[k]);
    }
  }

  /** One indented line: four spaces, then no whitespace at either end of
      what follows. */
  lemma IndentedLine(s: string)
    ensures var line := Indent(s);
      && line[..4] == "    "
      && (|line| > 4 ==> line[4] !in Whitespace && line[|line| - 1] !in Whitespace)
  {
    var line := Indent(s);
    if |line| > 4 {
      assert line[4] == Strip(s)[0];
    }
  }

  function BeginPicture(scale: string): string
  {
    "\\begin{tikzpicture}[scale=" + scale + "]"
  }

  /** The first three lines: an empty line (the document starts with a
      line break), the class line and `\usepackage{tikz}`. */
  function HeadLines(opts: TikzOptions): seq<string>
  {
    ["", ClassLine(opts.format, opts.width, opts.height), TikzPackageLine]
  }

  /** The lines before the picture: the head, the packages, the library
      line, the preamble and `\begin{document}`. */
  function Prologue(opts: TikzOptions): seq<string>
  {
    HeadLines(opts) + UsePackageLines(opts.packages) + [LibraryLine(opts.libraries)]
      + PreambleLines(opts.preamble) + [BeginDocument]
  }

  /** The document, line by line. The first code line follows the
      `\begin{tikzpicture}` opening on the same line, since no line break
      is put between them. */
  function DocumentLines(opts: TikzOptions, code: string, linesep: string): seq<string>
    requires linesep != []
  {
    var body := IndentCode(code, linesep);
    Prologue(opts) + [BeginPicture(opts.scale) + body[0]] + body[1..] + Epilogue
  }

  /** The template block of the magic: the chunks of `tex` are appended one
      by one (one per package in the loop) and concatenated. Every chunk but
      the code starts its lines with a line break. */
  method BuildDocument(opts: TikzOptions, code: string, linesep: string) returns (doc: string)
    requires linesep != []
    ensures doc == Join(DocumentLines(opts, code, linesep), "\n")
  {
    var addParams := "";
    if opts.format == "png" || opts.format == "jpg" || opts.format == "jpeg" {
      addParams := addParams + "density=300,";
    }
    var classLine := "\\documentclass[convert={" + addParams + SizeOption(opts.width, opts.height)
                     + "},border=0pt]{standalone}";
    var tex := ["\n" + classLine + "\n" + "\\usepackage{tikz}"];
    ClassLineText(opts.format, opts.width, opts.height, addParams);
    FirstChunk(classLine, TikzPackageLine);
    assert HeadLines(opts) + UsePackageLines(opts.packages[..0]) == HeadLines(opts);
    for i := 0 to |opts.packages|
      invariant tex != []
      invariant Join(tex, "") == Join(HeadLines(opts) + UsePackageLines(opts.packages[..i]), "\n")
    {
      PackageChunk(tex, HeadLines(opts), opts.packages, i);
      tex := tex + ["\n" + UsePackage(opts.packages[i])];
    }
    assert opts.packages[..|opts.packages|] == opts.packages;
    ghost var withPackages := tex;
    ghost var preambleChunks: seq<string> := [];

    tex := tex + ["\n" + LibraryLine(opts.libraries)];
    if opts.preamble.Some? {
      preambleChunks := ["\n" + StripChars(opts.preamble.value, QuoteChars)];
      tex := tex + ["\n" + StripChars(opts.preamble.value, QuoteChars)];
    }
    ghost var withPreamble := tex;
    tex := tex + ["\n" + BeginDocument + "\n" + BeginPicture(opts.scale)];
    tex := tex + [Join(IndentCode(code, linesep), "\n")];
    tex := tex + ["\n" + Epilogue[0] + "\n" + Epilogue[1] + "\n" + Epilogue[2]];

    assert withPreamble == withPackages + ["\n" + LibraryLine(opts.libraries)] + preambleChunks;
    AssembleTail(withPackages, HeadLines(opts) + UsePackageLines(opts.packages), LibraryLine(opts.libraries),
                 PreambleLines(opts.preamble), preambleChunks, BeginDocument, BeginPicture(opts.scale),
                 IndentCode(code, linesep), Epilogue);
    doc := Join(tex, "");
  }

  /** After the package loop, the remaining chunks (library, preamble,
      opening, code, closing) complete the document's lines. */
  lemma AssembleTail(t0: seq<string>, init: seq<string>, lib: string, pre: seq<string>, pc: seq<string>,
                     bd: string, bp: string, body: seq<string>, epi: seq<string>)
    requires t0 != [] && init != [] && body != [] && |pre| <= 1 && |epi| == 3
    requires pc == if pre == [] then [] else ["\n" + pre[0]]
    requires Join(t0, "") == Join(init, "\n")
    ensures Join(t0 + ["\n" + lib] + pc + ["\n" + bd + "\n" + bp] + [Join(body, "\n")]
                 + ["\n" + epi[0] + "\n" + epi[1] + "\n" + epi[2]], "")
            == Join(init + [lib] + pre + [bd] + [bp + body[0]] + body[1..] + epi, "\n")
  {
    AppendLine(t0, init, lib);
    var t, lines := t0 + ["\n" + lib], init + [lib];
    if pre != [] {
      AppendLine(t, lines, pre[0]);
      assert t + pc == t + ["\n" + pre[0]];
      assert lines + pre == lines + [pre[0]];
    } else {
      assert t + pc == t && lines + pre == lines;
    }
    AssembleBody(t + pc, lines + pre, bd, bp, body, epi);
  }

  /** From `\begin{document}` on: the opening chunk, the code and the
      closing chunk. */
  lemma AssembleBody(t: seq<string>, lines: seq<string>, bd: string, bp: string, body: seq<string>, epi: seq<string>)
    requires t != [] && lines != [] && body != [] && |epi| == 3
    requires Join(t, "") == Join(lines, "\n")
    ensures Join(t + ["\n" + bd + "\n" + bp] + [Join(body, "\n")]
                 + ["\n" + epi[0] + "\n" + epi[1] + "\n" + epi[2]], "")
            == Join(lines + [bd] + [bp + body[0]] + body[1..] + epi, "\n")
  {
    OpenPicture(t, lines, bd, bp, body);
    CloseDocument(t + ["\n" + bd + "\n" + bp] + [Join(body, "\n")],
                  lines + [bd] + [bp + body[0]] + body[1..], epi);
  }

  /** The closing chunk adds the three closing lines. */
  lemma CloseDocument(t: seq<string>, lines: seq<string>, epi: seq<string>)
    requires t != [] && lines != [] && |epi| == 3
    requires Join(t, "") == Join(lines, "\n")
    ensures Join(t + ["\n" + epi[0] + "\n" + epi[1] + "\n" + epi[2]], "") == Join(lines + epi, "\n")
  {
    AppendThreeLines(t, lines, epi[0], epi[1], epi[2]);
    assert lines + [epi[0], epi[1], epi[2]] == lines + epi;
  }

  /** The opening chunk and the code chunk: `\begin{document}`, then the
      picture opening glued to the first code line, then the other lines. */
  lemma OpenPicture(t: seq<string>, lines: seq<string>, bd: string, bp: string, body: seq<string>)
    requires t != [] && lines != [] && body != []
    requires Join(t, "") == Join(lines, "\n")
    ensures Join(t + ["\n" + bd + "\n" + bp] + [Join(body, "\n")], "")
            == Join(lines + [bd] + [bp + body[0]] + body[1..], "\n")
  {
    AppendTwoLines(t, lines, bd, bp);
    assert lines + [bd, bp] == lines + [bd] + [bp];
    AppendGlued(t + ["\n" + bd + "\n" + bp], lines + [bd], bp, body);
  }

  /** One turn of the package loop adds the package's line. */
  lemma PackageChunk(tex: seq<string>, head: seq<string>, ps: seq<string>, i: nat)
    requires tex != [] && head != [] && i < |ps|
    requires Join(tex, "") == Join(head + UsePackageLines(ps[..i]), "\n")
    ensures Join(tex + ["\n" + UsePackage(ps[i])], "") == Join(head + UsePackageLines(ps[..i + 1]), "\n")
  {
    AppendLine(tex, head + UsePackageLines(ps[..i]), UsePackage(ps[i]));
    PackagesSnoc(ps, i);
    assert head + UsePackageLines(ps[..i]) + [UsePackage(ps[i])] == head + UsePackageLines(ps[..i + 1]);
  }

  /** The class line as the template spells it. */
  lemma ClassLineText(fmt: string, width: string, height: string, addParams: string)
    requires addParams == if IsRasterFormat(fmt) then DensityHint else ""
    ensures "\\documentclass[convert={" + addParams + SizeOption(width, height) + "},border=0pt]{standalone}"
            == ClassLine(fmt, width, height)
  {
  }

  /** The first chunk holds the first three lines. */
  lemma FirstChunk(a: string, b: string)
    ensures Join(["\n" + a + "\n" + b], "") == Join(["", a, b], "\n")
  {
    JoinCons("", [a, b], "\n");
    JoinCons(a, [b], "\n");
  }

  lemma PackagesSnoc(ps: seq<string>, i: nat)
    requires i < |ps|
    ensures UsePackageLines(ps[..i + 1]) == UsePackageLines(ps[..i]) + [UsePackage(ps[i])]
  {
  }

  /** Appending a chunk made of a line break and one line adds that line. */
  lemma AppendLine(tex: seq<string>, lines: seq<string>, line: string)
    requires tex != [] && lines != []
    requires Join(tex, "") == Join(lines, "\n")
    ensures Join(tex + ["\n" + line], "") == Join(lines + [line], "\n")
  {
    JoinAppend(tex, ["\n" + line], "");
    JoinAppend(lines, [line], "\n");
  }

  /** Appending a chunk that puts two lines each after a line break adds
      those two lines. */
  lemma AppendTwoLines(tex: seq<string>, lines: seq<string>, a: string, b: string)
    requires tex != [] && lines != []
    requires Join(tex, "") == Join(lines, "\n")
    ensures Join(tex + ["\n" + a + "\n" + b], "") == Join(lines + [a, b], "\n")
  {
    AppendLine(tex, lines, a);
    AppendLine(tex + ["\n" + a], lines + [a], b);
    JoinAppend(tex, ["\n" + a + "\n" + b], "");
    JoinAppend(tex, ["\n" + a], "");
    JoinAppend(tex + ["\n" + a], ["\n" + b], "");
    assert lines + [a] + [b] == lines + [a, b];
  }

  /** The same for a chunk of three lines. */
  lemma AppendThreeLines(tex: seq<string>, lines: seq<string>, a: string, b: string, c: string)
    requires tex != [] && lines != []
    requires Join(tex, "") == Join(lines, "\n")
    ensures Join(tex + ["\n" + a + "\n" + b + "\n" + c], "") == Join(lines + [a, b, c], "\n")
  {
    AppendTwoLines(tex, lines, a, b);
    AppendLine(tex + ["\n" + a + "\n" + b], lines + [a, b], c);
    JoinAppend(tex, ["\n" + a + "\n" + b + "\n" + c], "");
    JoinAppend(tex, ["\n" + a + "\n" + b], "");
    JoinAppend(tex + ["\n" + a + "\n" + b], ["\n" + c], "");
    assert lines + [a, b] + [c] == lines + [a, b, c];
  }

  /** Appending the code chunk continues the last line and then adds the
      remaining code lines. */
  lemma AppendGlued(tex: seq<string>, init: seq<string>, last: string, body: seq<string>)
    requires tex != [] && init != [] && body != []
    requires Join(tex, "") == Join(init + [last], "\n")
    ensures Join(tex + [Join(body, "\n")], "") == Join(init + [last + body[0]] + body[1..], "\n")
  {
    JoinAppend(tex, [Join(body, "\n")], "");
    JoinAppend(init, [last], "\n");
    JoinAppend(init, [last + body[0]], "\n");
    if |body| > 1 {
      JoinAppend(init + [last + body[0]], body[1..], "\n");
      assert body == [body[0]] + body[1..];
      JoinCons(body[0], body[1..], "\n");
    } else {
      assert init + [last + body[0]] + body[1..] == init + [last + body[0]];
    }
  }
}
