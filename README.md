# Cheatsheet-God PDF generator, modelled in Dafny

`generate_pdf.py` converts plain-text cheatsheets into PDF documents. The Dafny project models
what that script decides, without the PDF library:

- **Default output path.** The output path of `generate_pdf_from_text` replaces every `.txt`
  in the input path with `.pdf`.
- **Title.** The title is the file's basename with every `.txt` removed, then every
  `Cheatsheet_` removed.
- **Segmentation loop.** The content is split on `'\n'`. Each maximal run of non-blank lines
  becomes one block. A line is blank when `line.strip()` is empty. Every blank line adds one
  small spacer. A block still open at the end of the input is flushed without a spacer after it.
- **Rendering fallback.** Each block is kept as preformatted text. If that fails, it becomes a
  paragraph with `<br/>` for each newline. If that also fails, the block is dropped.
- **Batch driver (`main`).** It converts the discovered files in sorted order and counts
  successes and failures.

Files:

- `wrappers.dfy`: `Option`.
- `py_str.dfy` (module `PyStr`): the Python string operations the script relies on:
  `str.strip`, `str.replace`, `str.split`, `str.join` and POSIX `os.path.basename`.
  Each is defined on `seq<char>`. The properties proved are those the script needs; for
  `str.replace` some hold only for patterns like the script's literals (see "## Left out").
- `py_sorted.dfy` (module `PySorted`): `sorted()` on strings, as an insertion sort. It is
  proved to produce a sorted permutation, and that permutation is proved unique.
- `segmentation.dfy` (module `Segmentation`): the document as abstract elements (`Title`,
  `BigSpacer`, `SmallSpacer`, `Block`, `Paragraph`). It also holds `Segment`, a run-based
  recursive definition of the grouping, and `Render`, which applies the per-block fallback.
- `generate_pdf.dfy` (module `GeneratePdf`): the title, the output path, the converter method
  with its imperative segmentation loop, and the batch driver with its counters.

The file system and the PDF library are parameters, bundled in `Env`:

- `read` gives a file's decoded content, or `None` when opening or reading it fails.
- `builds` says whether the whole `try` body after the read (lines 40-113) completes without an
  exception: creating the document and styles, building the title paragraph (whose text the
  library parses as markup), building the document at the given path, and printing the status
  line. A title that is not valid markup fails there. A status line the console
  cannot encode raises inside the same `try`, so such a run counts as a failure even though
  the document was written.
- `render` says what the library does with one block's text: accept it as preformatted text,
  accept only the paragraph fallback, or reject both.

`GeneratePdfFromText` is proved to hand the builder exactly `Render(Layout(...))`. `Layout` is
the title, the big spacer and `Segment` of the split content. The lemmas about `Segment` and
`Layout` state the promised shape of the document.

The loop lives in `SegmentLines`. It returns the elements the Python loop appends after the
title and the big spacer, and `GeneratePdfFromText` appends them to those two. Its test
`!IsBlank(line)` stands for `line.strip()` being truthy, and `PyStr.StripEmptyIffBlank` proves
the two agree. The script repeats the same `if current_block:` and `try`/`except` code inside
the loop and after it; both places call the one method `FlushBlock`.

Behaviour the proofs make explicit:

- Empty content still splits into one (blank) line. Its document is therefore the title, the
  big spacer and one small spacer.
- A path without `.txt` gets itself as the default output path.
- Every `.txt` in the path is replaced, not only the extension. For example `a.txt_b.txt`
  becomes `a.pdf_b.pdf`.
- Removing `.txt` from the title is also global. A name such as `.t.txtxt` still shows `.txt`
  after the removal, because removal can join the pieces around it (`TitleCanStillHoldTxt`).
- Two discovered names can share a default output path: `Cheatsheet_a.pdf.txt` and
  `Cheatsheet_a.txt.txt` both default to `Cheatsheet_a.pdf.pdf` (`DefaultOutputPathsCollide`).
  The batch then counts two successes, while the later file in sorted order overwrites the
  earlier one's document.

## Model

| member | source | states |
|---|---|---|
| PyStr.LStripTrims | generate_pdf.py:81 | `lstrip()` gives the longest suffix that does not start with whitespace; everything removed is whitespace |
| PyStr.RStripTrims | generate_pdf.py:81 | `rstrip()` gives the longest prefix that does not end with whitespace; everything removed is whitespace |
| PyStr.StripEmptyIffBlank | generate_pdf.py:81 | `line.strip()` is empty (falsy) exactly when every character of the line is whitespace |
| PyStr.MatchesPositiveIffContains | generate_pdf.py:28 | the left-to-right scan of `replace` finds an occurrence exactly when the pattern occurs in the string |
| PyStr.ReplaceLength | generate_pdf.py:28 | `replace` changes the length by `len(rep) - len(pat)` for each occurrence it replaces |
| PyStr.ReplaceWithoutMatch | generate_pdf.py:28 | without an occurrence of the pattern, `replace` returns the string unchanged |
| PyStr.ReplaceChanges | generate_pdf.py:28 | replacing an occurring pattern by a different string of the same length changes the string |
| PyStr.ReplaceAtFirstMatch | generate_pdf.py:28 | for a pattern whose first character does not recur in it (true of `.txt`, `Cheatsheet_` and `\n`), the first occurrence is replaced and the scan resumes after it |
| PyStr.RemoveLength | generate_pdf.py:70 | removing a pattern never lengthens the string, and keeps its length exactly when the pattern is absent |
| PyStr.RemoveIsIdentityIff | generate_pdf.py:70 | removing a pattern leaves the string unchanged exactly when the pattern does not occur |
| PyStr.RemoveBothIsIdentityIff | generate_pdf.py:70 | removing one pattern and then another leaves the string unchanged exactly when neither occurs |
| PyStr.RemoveFinalMatch | generate_pdf.py:70 | for a pattern whose first character does not recur in it (true of `.txt`, `Cheatsheet_` and `\n`), removing it from `stem + pattern`, with no pattern in the stem, gives the stem |
| PyStr.RemoveInitialMatch | generate_pdf.py:70 | for a pattern whose first character does not recur in it (true of `.txt`, `Cheatsheet_` and `\n`), removing it from `pattern + rest`, with no pattern in the rest, gives the rest |
| PyStr.Split | generate_pdf.py:76 | `split('\n')` gives at least one piece, no piece holds the separator, and joining the pieces with it gives the content back |
| PyStr.SplitJoin | generate_pdf.py:76 | splitting the join of one or more separator-free pieces gives the pieces back (zero pieces join to `""`, which splits into `[""]`) |
| PyStr.BasenameIsLastComponent | generate_pdf.py:70 | `basename` is the longest suffix of the path without `/`, preceded by `/` when it is not the whole path |
| PyStr.BasenameOfPlainName | generate_pdf.py:70 | a path without `/` is its own basename |
| PyStr.BasenameAfterDirectory | generate_pdf.py:70 | the basename of `dir/name` is `name` when `name` has no `/` |
| PySorted.LeTransitive | generate_pdf.py:136 | string order by code point is transitive |
| PySorted.LeAntisymmetric | generate_pdf.py:136 | two strings each at most the other are equal |
| PySorted.Insert | generate_pdf.py:136 | inserting into a sorted list gives a sorted list with one more copy of the element |
| PySorted.Sorted | generate_pdf.py:136 | `sorted()` returns a permutation of its input in non-decreasing order |
| PySorted.SortedUnique | generate_pdf.py:136 | two sorted permutations of the same list are equal, so `Sorted` is the order `sorted()` gives |
| Segmentation.RunLengthEndsAtBlank | generate_pdf.py:80-82 | the leading run of non-blank lines ends at the first blank line or at the end of input |
| Segmentation.SegmentAfterCut | generate_pdf.py:80-97 | grouping restarts after every blank line: the segmentation of `p + q` is that of `p` followed by that of `q` when `p` ends with a blank line |
| Segmentation.SegmentIsSegmented | generate_pdf.py:78-109 | every element is a small spacer or a non-empty block of non-blank lines, and every block is followed by a spacer unless it is last |
| Segmentation.SmallSpacersCountBlankLines | generate_pdf.py:80-97 | the number of small spacers equals the number of blank lines |
| Segmentation.BlocksHoldNonBlankLines | generate_pdf.py:78-109 | the blocks, flattened, are exactly the non-blank lines in input order |
| Segmentation.SegmentEndsLikeInput | generate_pdf.py:97-109 | a blank last line ends the document with a spacer; otherwise the last element is a block ending with the last line, with no spacer after it |
| Segmentation.AllBlankGivesOnlySpacers | generate_pdf.py:80-97 | input made only of blank lines gives one small spacer per line and no block |
| Segmentation.NoBlankGivesOneBlock | generate_pdf.py:99-104 | input with no blank line gives exactly one block holding every line |
| Segmentation.TwoParagraphs | generate_pdf.py:80-104 | two runs separated by one blank line give block, spacer, block |
| Segmentation.RenderConcat | generate_pdf.py:84-109 | rendering blocks one by one distributes over concatenation of the element list |
| Segmentation.RenderAllPreformatted | generate_pdf.py:87-89 | when the library accepts every block as preformatted text, the rendered document is the segmented one |
| Segmentation.RenderedRunThenBlank | generate_pdf.py:84-97 | a run closed by a blank line renders as the run's flushed block (if any) followed by one spacer |
| Segmentation.RenderedSegmentAtBlank | generate_pdf.py:84-97 | at a blank line, the rendered document so far grows by the open block's rendering (if any) and one spacer |
| Segmentation.RenderedSegmentInRun | generate_pdf.py:99-109 | inside the open run, and so at the end of input, the rendered document is the rendering up to the last blank line followed by the open block (if any) flushed without a spacer |
| Segmentation.RenderKeepsSpacing | generate_pdf.py:87-95 | the fallback replaces or drops blocks but never adds, drops or reorders the title or the spacers |
| Segmentation.FallbackJoinsWithBreaks | generate_pdf.py:93 | the fallback paragraph is the block's lines joined by `<br/>` |
| GeneratePdf.DefaultOutputPathChangesEveryTxt | generate_pdf.py:27-28 | the default output path has the input's length and equals the input exactly when the input holds no `.txt` |
| GeneratePdf.DefaultOutputPathOfTxtFile | generate_pdf.py:28 | `<stem>.txt` defaults to `<stem>.pdf` when the stem holds no `.txt` (otherwise that `.txt` is replaced too) |
| GeneratePdf.DefaultOutputPathReplacesInnerTxt | generate_pdf.py:28 | every `.txt` is replaced, not only the extension: `a.txt` + `b.txt` gives `a.pdf` + `b.pdf` |
| GeneratePdf.DefaultOutputPathsCollide | generate_pdf.py:28 | for a stem without `.`, `<stem>.pdf.txt` and `<stem>.txt.txt` (for example `Cheatsheet_a`, both matched by the batch's pattern) default to the same output path `<stem>.pdf.pdf` |
| GeneratePdf.TitleIsBasenameIff | generate_pdf.py:70 | the title equals the basename exactly when the basename holds neither `.txt` nor `Cheatsheet_` |
| GeneratePdf.RemoveSuffixPattern | generate_pdf.py:70 | removing a suffix pattern and then a second pattern from a plain `<stem><suffix>` name leaves the stem, when the stem holds neither pattern and the suffix pattern's first character does not recur in it |
| GeneratePdf.RemovePrefixAndSuffixPatterns | generate_pdf.py:70 | removing a suffix pattern and then a prefix pattern from a plain `<prefix><name><suffix>` name leaves the name, when the name holds neither pattern, neither pattern's first character recurs in it, and the suffix's first character is not in the prefix |
| GeneratePdf.TitleOfTxtFile | generate_pdf.py:70 | the title of `<stem>.txt` is the stem when the stem holds no `/`, `.txt` or `Cheatsheet_` (otherwise those are removed too) |
| GeneratePdf.TitleOfCheatsheet | generate_pdf.py:70 | the title of `Cheatsheet_<name>.txt` is the name when the name holds no `/`, `.txt` or `Cheatsheet_` (otherwise those are removed too) |
| GeneratePdf.TitleCanStillHoldTxt | generate_pdf.py:70 | removal can join the pieces around a removed `.txt`: `.t.txtxt` is titled `.txt` |
| GeneratePdf.TitleOfPythonCheatsheet | generate_pdf.py:70 | `Cheatsheet_Python.txt` is titled `Python` |
| GeneratePdf.TitleOfNotes | generate_pdf.py:70 | `Notes.txt` is titled `Notes` |
| GeneratePdf.TitleIgnoresDirectory | generate_pdf.py:70 | the directory part of the path never reaches the title |
| GeneratePdf.LayoutShape | generate_pdf.py:69-109 | the document starts with exactly the title and the big spacer; the rest is segmented, with one spacer per blank line and the blocks holding exactly the non-blank lines |
| GeneratePdf.LayoutWithoutBlankLine | generate_pdf.py:99-104 | content without blank lines gives title, big spacer and one block whose text is the whole content |
| GeneratePdf.LayoutOfBlankText | generate_pdf.py:80-97 | blank-only content gives title, big spacer and one small spacer per line, with no block |
| GeneratePdf.LayoutOfEmptyText | generate_pdf.py:76-97 | empty content gives title, big spacer and one small spacer |
| GeneratePdf.GeneratePdfFromText | generate_pdf.py:19-118 | output path defaulting; an unreadable file fails with no document; otherwise the builder gets the rendered layout, and the result is true exactly when the build succeeds |
| GeneratePdf.FlushBlock | generate_pdf.py:84-109 | at a blank line inside the loop and once after it, a non-empty block is appended as preformatted text, as its fallback paragraph or not at all, as the library decides; an empty block appends nothing |
| GeneratePdf.SegmentLines | generate_pdf.py:78-109 | the loop emits exactly the rendering of the run-based segmentation of the lines |
| GeneratePdf.Successes | generate_pdf.py:137-140 | at most one success per file |
| GeneratePdf.SuccessesConcat | generate_pdf.py:136-140 | the success count of a concatenation is the sum of the counts |
| GeneratePdf.SuccessesPermutation | generate_pdf.py:136 | the success count does not depend on the order of conversion |
| GeneratePdf.AllConvertIff | generate_pdf.py:145-146 | every file converts exactly when the success count is the number of files |
| GeneratePdf.RunBatch | generate_pdf.py:126-146 | nothing found means no conversions; otherwise each file is converted once in sorted order, the counters add up to the number found, successes count the discovered files that convert (`Successes` over `Convertible`), and failures are zero exactly when all convert |

## Left out

- ReportLab itself is left out: `SimpleDocTemplate`, the styles, the fonts, `Paragraph` markup
  parsing and `doc.build`. These are foreign library calls. The document is a sequence of
  abstract elements. Whether a block is accepted is the `render` parameter. Whether the
  document is built and written is the `builds` parameter.
- Page size, margins and spacer heights are left out. They are floating-point layout
  constants. Spacers are modelled only by kind (big under the title, small per blank line).
- Opening and decoding the file is left out (`errors='ignore'`, and text mode's conversion of
  `\r\n` and `\r` to `\n`). The decoded content is the `read` parameter, and a failed read is `None`.
- `glob.glob` discovery is left out. The discovered names are the input of `RunBatch`.
- All console output (`print`) is left out.
- PyStr.Replace: only non-empty patterns are modelled. The script uses only the literals
  `.txt`, `Cheatsheet_` and `'\n'`. `ReplaceAtFirstMatch`, `RemoveFinalMatch` and
  `RemoveInitialMatch` are proved only for patterns whose first character does not recur in
  them (`HeadOccursOnce`), which all three literals are; for other patterns they can fail
  (`"ab" + "aba"` with `aba` removed is `"ba"`).
- File names that are not valid UTF-8 are left out. On POSIX `glob` returns them with lone
  surrogate escapes, which a Dafny `char` cannot hold, so such names, their titles and their
  sort position are outside the model.
- PyStr.Basename: models POSIX `os.path.basename` only, which splits at `/`. On Windows,
  `ntpath` also splits at `\` and at a drive colon.
- GeneratePdf.RunBatch: returns the two counters and the number found, instead of printing them.
