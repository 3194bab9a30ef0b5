# tikzmagic, modelled in Dafny

`tikzmagic.py` is an IPython extension. Its `%tikz` / `%%tikz` magic wraps a
cell of TikZ code in a LaTeX `standalone` document, compiles it with
`pdflatex` and publishes the resulting image. This project models the part of
the extension that is plain string and list logic:

- `split_csv_args` and the `width, height = split_csv_args(size)` unpacking of
  the size option (`csv_args.dfy`);
- the template block of `TikzMagics.tikz`, which builds the LaTeX source chunk
  by chunk in the list `tex` (`template.dfy`). It is modelled as a method with
  the same chunks and the same package loop, proved equal to a line-by-line
  specification `DocumentLines`. The shape of that document is then proved in
  `template_shape.dfy`:
  - where every line sits;
  - how many `\usepackage` / `\usetikzlibrary` lines there are;
  - what happens to the user's code;
  - that the document is exactly its lines joined with line breaks;
- the `_MIME_TYPES` lookup with its `image/<format>` fallback (`mime.dfy`);
- the `TEXINPUTS` rule of `_convert_tikz_latex`, as a method over a copy of the
  environment map (`tex_inputs.dfy`).

`py_str.dfy` gives the Python `str` operations these rely on, with Python's
semantics:

- `strip()` removes every character for which `str.isspace()` holds;
- `strip(chars)` removes runs of those characters from both ends;
- `find`, `split(sep)` and `sep.join`.

These are parameters rather than fixed values:

- `os.linesep`, the separator the code is split on;
- `os.pathsep`, the `TEXINPUTS` list separator;
- the process environment.

Width, height and scale are the text that is spliced into the template.

The preamble option is stripped with `strip("'\"")`. That removes every
leading and trailing quote character, not only one layer of quoting. The model
follows the code (`Template.PreambleLines`, `Template.PreambleContent`).

The template puts no line break between the `\begin{tikzpicture}[scale=…]`
chunk and the code chunk. So the first code line ends up on the same line as
the picture opening. The model keeps this: `Template.DocumentLines` glues them,
and `TemplateShape.PictureLayout` states it.

## Model

| member | source | states |
|---|---|---|
| CsvArgs.SplitCsvArgs | tikzmagic.py:62-65 | every returned name is non-empty, has no whitespace at either end and holds no comma |
| CsvArgs.SplitCsvArgsJoin | tikzmagic.py:62-65 | names joined with commas split back into exactly the same names in the same order, so order is kept and nothing is merged or split |
| CsvArgs.SplitCsvArgsIdempotent | tikzmagic.py:62-65 | splitting, re-joining with commas and splitting again gives the first result |
| CsvArgs.SplitCsvArgsEmpty | tikzmagic.py:62-65 | the result is empty exactly when the option holds nothing but whitespace and commas, the empty string included |
| CsvArgs.NonBlankStripped | tikzmagic.py:63-65 | the filtered comprehension keeps at most as many names as pieces, each trimmed and non-empty |
| CsvArgs.NonBlankStrippedEmpty | tikzmagic.py:63-65 | the comprehension drops everything exactly when every piece is blank |
| CsvArgs.NonBlankStrippedAppend | tikzmagic.py:63-65 | the comprehension works piece by piece: the names of `xs + ys` are the names of `xs` followed by the names of `ys` |
| CsvArgs.NonBlankStrippedSingle | tikzmagic.py:63-65 | a single piece gives its stripped text when it holds anything but whitespace, and no name otherwise |
| CsvArgs.SplitCsvArgsPieces | tikzmagic.py:62-65 | the outer `strip()` changes nothing: the names are exactly the stripped non-blank pieces of the raw option split at its commas |
| CsvArgs.ParseSize | tikzmagic.py:263 | unpacking succeeds exactly when there are two names and yields them in order, each non-empty, trimmed and free of commas; otherwise it fails with the number of names found |
| CsvArgs.ParseSizeCanonical | tikzmagic.py:263 | a parsed size written back as `width,height` parses to the same result |
| CsvArgs.ParseSizeJoin | tikzmagic.py:263 | a size written `w,h` from two well-formed names unpacks to exactly `(w, h)` |
| Template.ReadOptions | tikzmagic.py:259-268 | options are read exactly when the size has two names, and otherwise fail with the number of names; width and height are exactly the pair the size unpacks to; scale and format pass through unchanged; packages and libraries are the split options; the preamble is always present |
| Template.ClassLineDensity | tikzmagic.py:288-294 | the class line starts with `\documentclass[convert={` and carries `density=300,` right after it exactly for `png`, `jpg` and `jpeg` |
| Template.ClassLineSize | tikzmagic.py:292-294 | the class line contains `size=<width>x<height>,outext=.png` and ends with `},border=0pt]{standalone}` |
| TemplateShape.RasterIffBitmapMime | tikzmagic.py:288-290 | the density hint goes exactly to the formats published as `image/png` or `image/jpeg` |
| Template.UsePackageLines | tikzmagic.py:296-298 | one `\usepackage{p}` line per package, in input order |
| Template.PreambleContent | tikzmagic.py:303-305 | the preamble line is the preamble minus a leading and a trailing run of quote characters, its interior unchanged; it is empty exactly when the preamble is all quotes |
| Template.IndentCode | tikzmagic.py:311-314 | one code line per piece of the code split at the line separator, and at least one |
| Template.IndentLineAt | tikzmagic.py:311-314 | code line `k` is piece `k` trimmed, behind four spaces |
| Template.CodeIndentation | tikzmagic.py:311-314 | every code line is four spaces followed by the trimmed piece, with no whitespace right after the indent or at the end |
| Template.BuildDocument | tikzmagic.py:288-321 | the concatenated chunks are exactly the document's lines joined with line breaks |
| TemplateShape.PrologueLayout | tikzmagic.py:292-309 | the lines before the picture are, in order: an empty line, the class line, `\usepackage{tikz}`, one line per package, the library line, the preamble line if any and `\begin{document}` |
| TemplateShape.PictureLayout | tikzmagic.py:307-319 | after the prologue come the picture opening glued to the first code line, the other code lines in order, then `\end{tikzpicture}`, `\end{document}` and a line of spaces |
| TemplateShape.PackageLineCount | tikzmagic.py:292-298 | the document has `1 + |packages|` `\usepackage` lines, plus those the preamble writes itself, so there is no deduplication |
| TemplateShape.LibraryLineCount | tikzmagic.py:300-301 | the document has exactly one `\usetikzlibrary` line, plus those the preamble writes itself |
| TemplateShape.LibraryLineArgument | tikzmagic.py:300-301 | the library line is `\usetikzlibrary{` and `}` around the libraries joined with commas, and splitting that argument back gives the libraries |
| TemplateShape.EmptyLibraryLine | tikzmagic.py:300-301 | with no library the line is still emitted, as `\usetikzlibrary{}` |
| TemplateShape.DedentIndent | tikzmagic.py:311-314 | removing the indent from indented trimmed lines gives back the lines |
| TemplateShape.CodeRoundTrip | tikzmagic.py:311-314 | for code whose lines carry no surrounding whitespace, removing the indent and re-joining with the line separator gives back the code, so no line is lost or reordered |
| TemplateShape.CodePiecesSingle | tikzmagic.py:311-313 | splitting the code at `\n`, or splitting code that holds no `\n`, gives pieces without line breaks |
| TemplateShape.DocumentLinesSingle | tikzmagic.py:292-319 | with no line break in the options or in the pieces of the code split at the line separator, no document line holds a line break |
| TemplateShape.DocumentSplitsIntoLines | tikzmagic.py:292-321 | under the same condition, splitting the document at line breaks gives exactly its template lines |
| Mime.MimeType | tikzmagic.py:54-59 | `svg` maps to `image/svg+xml`, `jpg` to `image/jpeg`, and every other format `f`, `png` and `jpeg` included, to `image/f` |
| Mime.SubtypeOf | tikzmagic.py:347 | the subtype after `image/` is the format itself, except for `svg` and `jpg` |
| Mime.MimeTypeCollisions | tikzmagic.py:54-59 | two different formats share a MIME type only as `jpg`/`jpeg` or `svg`/`svg+xml` |
| TexInputs.LatexEnvironment | tikzmagic.py:136-142 | the copy gains `TEXINPUTS` and nothing else changes; an existing search path gets the working directory in front; otherwise the path is `.` and the directory, followed by a doubled separator that leaves two empty entries, which stand for the defaults |
| TexInputs.SearchPathWithoutTexInputs | tikzmagic.py:139-142 | a fresh `TEXINPUTS` splits into `.`, the working directory and two empty entries, so the compiler searches `.`, then the directory, then its default path |
| PyStr.FindFirst | tikzmagic.py:64 | `find` returns the first occurrence, and -1 only when there is none |
| PyStr.SplitPiecesFree | tikzmagic.py:64 | no piece of `split(sep)` contains the separator |
| PyStr.JoinSplit | tikzmagic.py:313 | joining the pieces of `split(sep)` with `sep` gives back the string |
| PyStr.SplitJoin | tikzmagic.py:64 | splitting a join of separator-free pieces gives back the pieces |

## Left out

- Running `pdflatex`, `pdf2svg` and `convert`, with their return-code handling (tikzmagic.py:144-153, 164-181). These are external programs.
- The filesystem and process state are not modelled:
  - the `working_directory` context manager;
  - `tempfile.mkdtemp`;
  - writing `tikz.tex`;
  - reading `tikz.log` and the image;
  - `copy` and `rmtree`.

  These are tikzmagic.py:68-77, 123-130, 155-162, 286 and 342-360.
- The MIME lookup is modelled, but the surrounding publication is not.
- `_fix_gnuplot_svg_size` (tikzmagic.py:98-121): it rests on `xml.dom.minidom`, which is not part of this model.
- The IPython glue is not modelled:
  - argument parsing;
  - `publish_display_data`;
  - the choice between line and cell magic;
  - extension registration.

  These are tikzmagic.py:183-227, 260, 272-283, 328-335, 362-367 and 375-377. `Template.ReadOptions` takes the already parsed option strings as parameters.
- Prepending the line's code arguments to the cell (tikzmagic.py:279) and the dry-run `print` (tikzmagic.py:322-324). `Template.BuildDocument` takes the combined code as a parameter.
- The `int()` parse of the size fields (tikzmagic.py:348) and the converter dispatch on the format (tikzmagic.py:337-340). These only feed the external programs and the SVG size fix.
- `%`-formatting: width, height, scale, package names and the preamble are spliced in as text. The default scale `1`, an integer, would be formatted as `1`; the model receives that text.
- `Template.BuildDocument`: the resulting string is not written to `tikz.tex`, and the encoding option is not modelled.
- `TemplateShape.PackageLineCount` and `TemplateShape.LibraryLineCount` count the lines of the template (`DocumentLines`). When the options or the code themselves hold line breaks, the generated text has further lines. `TemplateShape.DocumentSplitsIntoLines` states when the two agree.
- `TemplateShape.CodeRoundTrip`: only for code whose lines have no leading or trailing whitespace, since `strip()` loses that whitespace.
