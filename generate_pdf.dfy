/**
 * The cheatsheet converter: `generate_pdf_from_text` turns one text file into a
 * document (a title, a spacer, then the text's blocks and blank-line spacers), and
 * the batch driver converts every discovered cheatsheet in sorted order, counting
 * successes and failures.
 *
 * The file system and the rendering library are parameters (`Env`): what reading a
 * file yields, whether building the document succeeds, and how the library takes each
 * block's text.
 */
module GeneratePdf {
  import opened Wrappers
  import opened PyStr
  import opened PySorted
  import opened Segmentation

  /** What the converter cannot see. */
  datatype Env = Env(
    read: string -> Option<string>,      // the decoded content of a file; None when opening or reading it fails
    builds: (string, seq<Element>) -> bool,  // whether generate_pdf.py lines 40-113 complete without an exception for these elements and this path: styles, title markup, build, status print
    render: string -> BlockRendering)    // how the rendering library takes the text of one block

  /** The default output path: every `.txt` in the input path replaced by `.pdf`. */
  function DefaultOutputPath(textFile: string): string {
    Replace(textFile, ".txt", ".pdf")
  }

  /** The title: the basename with every `.txt` removed, then every `Cheatsheet_` removed. */
  function TitleOf(textFile: string): string {
    Replace(Replace(Basename(textFile), ".txt", ""), "Cheatsheet_", "")
  }

  /** The document for a file's content: the title, the big spacer, then the segmented lines. */
  function Layout(textFile: string, content: string): seq<Element> {
    [Title(TitleOf(textFile)), BigSpacer] + Segment(Split(content, '\n'))
  }

  /** Converting a file to its default output path succeeds when it can be read and its document can be built. */
  predicate Converts(env: Env, textFile: string) {
    match env.read(textFile)
    case None => false
    case Some(content) => env.builds(DefaultOutputPath(textFile), Render(Layout(textFile, content), env.render))
  }

  // ---------------------------------------------------------------------------
  // Output path and title

  /** The default output path has the input's length, and equals the input exactly when the input holds no `.txt`. */
  lemma DefaultOutputPathChangesEveryTxt(textFile: string)
    ensures |DefaultOutputPath(textFile)| == |textFile|
    ensures DefaultOutputPath(textFile) == textFile <==> !Contains(textFile, ".txt")
  {
    ReplaceLength(textFile, ".txt", ".pdf");
    if Contains(textFile, ".txt") {
      ReplaceChanges(textFile, ".txt", ".pdf");
    } else {
      ReplaceWithoutMatch(textFile, ".txt", ".pdf");
    }
  }

  /** A name ending in its only `.txt` gets the same name ending in `.pdf`. */
  lemma DefaultOutputPathOfTxtFile(stem: string)
    requires !Contains(stem, ".txt")
    ensures DefaultOutputPath(stem + ".txt") == stem + ".pdf"
  {
    ReplaceAtFirstMatch(stem, ".txt", ".pdf", []);
    assert stem + ".txt" + [] == stem + ".txt";
  }

  /** Every `.txt` is replaced, not only the suffix: `a.txt` + `b.txt` becomes `a.pdf` + `b.pdf`. */
  lemma DefaultOutputPathReplacesInnerTxt(a: string, b: string)
    requires !Contains(a, ".txt") && !Contains(b, ".txt")
    ensures DefaultOutputPath(a + ".txt" + b + ".txt") == a + ".pdf" + b + ".pdf"
  {
    assert a + ".txt" + b + ".txt" == a + ".txt" + (b + ".txt");
    ReplaceAtFirstMatch(a, ".txt", ".pdf", b + ".txt");
    DefaultOutputPathOfTxtFile(b);
  }

  /** `.pdf` holds no `.txt`. */
  lemma PdfHoldsNoTxt()
    ensures !Contains(".pdf", ".txt")
  {
    assert ".pdf"[0..4][1] == 'p' != ".txt"[1];
  }

  /**
   * Two names the batch discovers can share a default output path: both `.txt` of
   * `<stem>.txt.txt` are replaced, so it lands where `<stem>.pdf.txt` does.
   */
  lemma DefaultOutputPathsCollide(stem: string)
    requires '.' !in stem
    ensures DefaultOutputPath(stem + ".pdf.txt") == stem + ".pdf.pdf"
    ensures DefaultOutputPath(stem + ".txt.txt") == stem + ".pdf.pdf"
  {
    WithoutHeadNoMatch(stem, ".txt");
    PdfHoldsNoTxt();
    ConcatNoMatch(stem, ".pdf", ".txt");
    DefaultOutputPathOfTxtFile(stem + ".pdf");
    assert stem + ".pdf" + ".txt" == stem + ".pdf.txt" && stem + ".pdf" + ".pdf" == stem + ".pdf.pdf";
    WithoutHeadNoMatch("", ".txt");
    DefaultOutputPathReplacesInnerTxt(stem, "");
    assert stem + ".txt" + "" + ".txt" == stem + ".txt.txt" && stem + ".pdf" + "" + ".pdf" == stem + ".pdf.pdf";
  }

  /** The title is the basename itself exactly when the basename holds neither `.txt` nor `Cheatsheet_`. */
  lemma TitleIsBasenameIff(textFile: string)
    ensures TitleOf(textFile) == Basename(textFile)
        <==> !Contains(Basename(textFile), ".txt") && !Contains(Basename(textFile), "Cheatsheet_")
  {
    RemoveBothIsIdentityIff(Basename(textFile), ".txt", "Cheatsheet_");
  }

  /**
   * Removing a suffix pattern `p` whose first character does not recur, then a pattern `q`, from the basename of a
   * plain name made of a stem and `p` leaves the stem, when the stem holds neither pattern.
   * Stated on symbolic patterns so that the literal ones need no unfolding.
   */
  lemma RemoveSuffixPattern(path: string, p: string, q: string)
    requires HeadOccursOnce(p) && q != []
    requires '/' !in path && |path| >= |p| && path[|path| - |p|..] == p
    requires !Contains(path[..|path| - |p|], p) && !Contains(path[..|path| - |p|], q)
    ensures Replace(Replace(Basename(path), p, []), q, []) == path[..|path| - |p|]
  {
    var stem := path[..|path| - |p|];
    assert path == stem + p;
    BasenameOfPlainName(path);
    RemoveFinalMatch(stem, p);
    ReplaceWithoutMatch(stem, q, []);
  }

  /** As `RemoveSuffixPattern`, for a plain name made of a prefix pattern `q`, a stem and a suffix pattern `p`. */
  lemma RemovePrefixAndSuffixPatterns(path: string, p: string, q: string)
    requires HeadOccursOnce(p) && HeadOccursOnce(q) && p[0] !in q
    requires '/' !in path && |path| >= |q| + |p| && path[..|q|] == q && path[|path| - |p|..] == p
    requires !Contains(path[|q|..|path| - |p|], p) && !Contains(path[|q|..|path| - |p|], q)
    ensures Replace(Replace(Basename(path), p, []), q, []) == path[|q|..|path| - |p|]
  {
    var name := path[|q|..|path| - |p|];
    var stem := path[..|path| - |p|];
    assert stem == q + name;
    assert path == stem + p;
    BasenameOfPlainName(path);
    ConcatNoMatch(q, name, p);
    RemoveFinalMatch(stem, p);
    RemoveInitialMatch(q, name);
  }

  /** The title of `<stem>.txt` is the stem, when the stem has no `/`, `.txt` or `Cheatsheet_` of its own. */
  lemma TitleOfTxtFile(path: string)
    requires '/' !in path && |path| >= 4 && path[|path| - 4..] == ".txt"
    requires !Contains(path[..|path| - 4], ".txt") && !Contains(path[..|path| - 4], "Cheatsheet_")
    ensures TitleOf(path) == path[..|path| - 4]
  {
    RemoveSuffixPattern(path, ".txt", "Cheatsheet_");
  }

  /** The title of `Cheatsheet_<name>.txt` is the name, when the name has no `/`, `.txt` or `Cheatsheet_` of its own. */
  lemma TitleOfCheatsheet(path: string)
    requires '/' !in path && |path| >= 15 && path[..11] == "Cheatsheet_" && path[|path| - 4..] == ".txt"
    requires !Contains(path[11..|path| - 4], ".txt") && !Contains(path[11..|path| - 4], "Cheatsheet_")
    ensures TitleOf(path) == path[11..|path| - 4]
  {
    RemovePrefixAndSuffixPatterns(path, ".txt", "Cheatsheet_");
  }

  /** `Cheatsheet_Python.txt` is titled `Python`. */
  lemma TitleOfPythonCheatsheet()
    ensures TitleOf("Cheatsheet_Python.txt") == "Python"
  {
    var path := "Cheatsheet_Python.txt";
    var name := path[11..|path| - 4];
    assert name == "Python";
    WithoutHeadNoMatch(name, ".txt");
    WithoutHeadNoMatch(name, "Cheatsheet_");
    TitleOfCheatsheet(path);
  }

  /** `Notes.txt` is titled `Notes`. */
  lemma TitleOfNotes()
    ensures TitleOf("Notes.txt") == "Notes"
  {
    var path := "Notes.txt";
    var stem := path[..|path| - 4];
    assert stem == "Notes";
    WithoutHeadNoMatch(stem, ".txt");
    WithoutHeadNoMatch(stem, "Cheatsheet_");
    TitleOfTxtFile(path);
  }

  /**
   * Removal can join the pieces around a removed `.txt` into a new one: `.t.txtxt`
   * loses its inner `.txt`, and the `.t` before it and the `xt` after it spell `.txt`.
   */
  lemma TitleCanStillHoldTxt()
    ensures TitleOf(".t.txtxt") == ".txt"
    ensures Contains(TitleOf(".t.txtxt"), ".txt")
  {
    var path := ".t.txtxt";
    assert path == ".t" + ".txt" + "xt";
    BasenameOfPlainName(path);
    assert !OccursAt(".t", ".txt", 0) && !OccursAt(".t", ".txt", 1) && !OccursAt(".t", ".txt", 2);
    WithoutHeadNoMatch("xt", ".txt");
    ReplaceAtFirstMatch(".t", ".txt", [], "xt");
    ReplaceWithoutMatch("xt", ".txt", []);
    assert ".t" + [] + "xt" == ".txt";
    WithoutHeadNoMatch(".txt", "Cheatsheet_");
    ReplaceWithoutMatch(".txt", "Cheatsheet_", []);
    assert OccursAt(".txt", ".txt", 0);
  }

  /** The directory part of the path never reaches the title. */
  lemma TitleIgnoresDirectory(dir: string, fileName: string)
    requires '/' !in fileName
    ensures TitleOf(dir + "/" + fileName) == TitleOf(fileName)
  {
    BasenameAfterDirectory(dir, fileName);
    assert Basename(fileName) == fileName;
  }

  // ---------------------------------------------------------------------------
  // The document

  /**
   * The document opens with the title and the big spacer; after them come non-empty blocks
   * of non-blank lines, each followed by a small spacer unless it ends the document; there
   * is one small spacer per blank line, and the blocks hold exactly the non-blank lines,
   * in order.
   */
  lemma LayoutShape(textFile: string, content: string)
    ensures var doc := Layout(textFile, content);
      && |doc| >= 2
      && doc[0] == Title(TitleOf(textFile)) && doc[1] == BigSpacer
      && Segmented(doc[2..])
      && CountSmallSpacers(doc[2..]) == CountBlank(Split(content, '\n'))
      && BlockLines(doc[2..]) == NonBlank(Split(content, '\n'))
  {
    var lines := Split(content, '\n');
    assert Layout(textFile, content)[2..] == Segment(lines);
    SegmentIsSegmented(lines);
    SmallSpacersCountBlankLines(lines);
    BlocksHoldNonBlankLines(lines);
  }

  /** A text without blank lines becomes one block whose text is the whole content. */
  lemma LayoutWithoutBlankLine(textFile: string, content: string)
    requires AllNonBlank(Split(content, '\n'))
    ensures Layout(textFile, content) == [Title(TitleOf(textFile)), BigSpacer, Block(Split(content, '\n'))]
    ensures BlockText(Split(content, '\n')) == content
  {
    NoBlankGivesOneBlock(Split(content, '\n'));
  }

  /** A text made only of blank lines gets one small spacer per line and no block. */
  lemma LayoutOfBlankText(textFile: string, content: string)
    requires forall i :: 0 <= i < |Split(content, '\n')| ==> IsBlank(Split(content, '\n')[i])
    ensures Layout(textFile, content)
         == [Title(TitleOf(textFile)), BigSpacer] + seq(|Split(content, '\n')|, _ => SmallSpacer)
  {
    AllBlankGivesOnlySpacers(Split(content, '\n'));
  }

  /** Empty content still has one (blank) line, so its document is the header and one small spacer. */
  lemma LayoutOfEmptyText(textFile: string)
    ensures Layout(textFile, []) == [Title(TitleOf(textFile)), BigSpacer, SmallSpacer]
  {
    var lines := Split([], '\n');
    assert lines == [[]] && IsBlank(lines[0]);
    AllBlankGivesOnlySpacers(lines);
    assert seq(1, _ => SmallSpacer) == [SmallSpacer];
  }

  // ---------------------------------------------------------------------------
  // generate_pdf_from_text

  /**
   * Converts one file. The output path defaults from the input path; an unreadable file
   * fails with no document; otherwise the elements handed to the document builder are the
   * rendered layout of the content, and the conversion succeeds when the build does.
   */
  method GeneratePdfFromText(textFile: string, outputFile: Option<string>, env: Env)
    returns (ok: bool, outputPath: string, elements: seq<Element>)
    ensures outputPath == if outputFile.Some? then outputFile.value else DefaultOutputPath(textFile)
    ensures ok <==> env.read(textFile).Some? && env.builds(outputPath, elements)
    ensures outputFile.None? ==> (ok <==> Converts(env, textFile))
    ensures env.read(textFile).None? ==> elements == []
    ensures env.read(textFile).Some? ==> elements == Render(Layout(textFile, env.read(textFile).value), env.render)
  {
    outputPath := if outputFile.None? then DefaultOutputPath(textFile) else outputFile.value;
    var read := env.read(textFile);
    if read.None? {
      return false, outputPath, [];
    }
    var content := read.value;

    elements := [];
    var title := TitleOf(textFile);
    elements := elements + [Title(title)];
    elements := elements + [BigSpacer];
    var header := elements;
    assert Render(header, env.render) == header by {
      assert header[1..] == [BigSpacer] && header[1..][1..] == [];
      assert Render(header[1..], env.render) == [BigSpacer];
    }

    var lines := Split(content, '\n');
    var body := SegmentLines(lines, env.render);
    elements := elements + body;
    RenderConcat(header, Segment(lines), env.render);
    assert elements == Render(Layout(textFile, content), env.render);
    ok := env.builds(outputPath, elements);
  }

  /** Extending a slice by one index appends that element. */
  lemma SliceGrows<T>(s: seq<T>, k: nat, i: nat)
    requires k <= i < |s|
    ensures s[k..i + 1] == s[k..i] + [s[i]]
  {
  }

  /**
   * The imperative form of the flush the loop performs at each blank line and once after it;
   * `Segmentation.Flush` is its specification.
   * `if current_block:` followed by the `try`/`except` that renders it: appends the
   * current block as a preformatted block, as its fallback paragraph, or not at all;
   * an empty block appends nothing.
   */
  method FlushBlock(elements: seq<Element>, currentBlock: seq<string>, render: string -> BlockRendering)
    returns (flushed: seq<Element>)
    ensures flushed == elements + Flush(currentBlock, render)
    ensures currentBlock != [] && render(BlockText(currentBlock)).AsPreformatted? ==>
      flushed == elements + [Block(currentBlock)]
    ensures currentBlock == [] || render(BlockText(currentBlock)).Dropped? ==> flushed == elements
  {
    flushed := elements;
    if currentBlock != [] {
      flushed := flushed + RenderBlock(currentBlock, render);
    } else {
      assert flushed + [] == flushed;
    }
  }

  /**
   * The segmentation loop of `generate_pdf_from_text`: walks the lines, collecting non-blank
   * ones into the current block; a blank line flushes the block (rendered) and adds a small
   * spacer; the last block is flushed after the loop. The elements it emits are the rendering
   * of the run-based segmentation `Segment(lines)`.
   */
  method SegmentLines(lines: seq<string>, render: string -> BlockRendering) returns (elements: seq<Element>)
    ensures elements == Render(Segment(lines), render)
  {
    elements := [];
    var currentBlock: seq<string> := [];
    ghost var k := 0;   // where the current block starts
    for i := 0 to |lines|
      invariant k <= i && currentBlock == lines[k..i]
      invariant AllNonBlank(currentBlock)
      invariant k == 0 || IsBlank(lines[k - 1])
      invariant elements == Render(Segment(lines[..k]), render)
    {
      var line := lines[i];
      if !IsBlank(line) {   // `line.strip()` is truthy (StripEmptyIffBlank)
        SliceGrows(lines, k, i);
        currentBlock := currentBlock + [line];
      } else {
        RenderedSegmentAtBlank(lines, k, i, render);
        elements := FlushBlock(elements, currentBlock, render);
        currentBlock := [];
        elements := elements + [SmallSpacer];
        k := i + 1;
      }
    }

    RenderedSegmentInRun(lines, k, |lines|, render);
    assert lines[..|lines|] == lines;
    elements := FlushBlock(elements, currentBlock, render);
  }

  // ---------------------------------------------------------------------------
  // main

  /** What the batch run reports: nothing found, or the number found and the two counters. */
  datatype Summary = NoFiles | Completed(found: nat, successCount: nat, failCount: nat)

  /** The number of files among `files` that convert. */
  function Successes(files: seq<string>, converting: set<string>): (n: nat)
    ensures n <= |files|
    decreases |files|
  {
    if files == [] then 0
    else Successes(files[..|files| - 1], converting) + (if files[|files| - 1] in converting then 1 else 0)
  }

  /** The files among `files` that convert in `env`. */
  function Convertible(files: seq<string>, env: Env): set<string> {
    set f | f in files && Converts(env, f)
  }

  lemma {:induction false} SuccessesConcat(a: seq<string>, b: seq<string>, converting: set<string>)
    ensures Successes(a + b, converting) == Successes(a, converting) + Successes(b, converting)
    decreases |b|
  {
    if b == [] {
      assert a + b == a;
    } else {
      assert (a + b)[..|a + b| - 1] == a + b[..|b| - 1];
      SuccessesConcat(a, b[..|b| - 1], converting);
    }
  }

  /** Taking the file at index `k` out of the list takes its contribution out of the count. */
  lemma SuccessesWithout(files: seq<string>, k: int, converting: set<string>)
    requires 0 <= k < |files|
    ensures Successes(files, converting)
         == Successes(files[..k] + files[k + 1..], converting) + (if files[k] in converting then 1 else 0)
  {
    assert files == files[..k] + [files[k]] + files[k + 1..];
    SuccessesConcat(files[..k] + [files[k]], files[k + 1..], converting);
    SuccessesConcat(files[..k], files[k + 1..], converting);
    assert (files[..k] + [files[k]])[..k] == files[..k];
  }

  lemma MultisetWithout(s: seq<string>, k: int)
    requires 0 <= k < |s|
    ensures multiset(s[..k] + s[k + 1..]) == multiset(s) - multiset{s[k]}
  {
    assert s == s[..k] + ([s[k]] + s[k + 1..]);
  }

  /** Taking the last file of `a` and the same file at index `k` of its permutation `b` out of both. */
  lemma RemoveMatching(a: seq<string>, b: seq<string>, k: int, converting: set<string>)
    requires a != [] && 0 <= k < |b| && b[k] == a[|a| - 1]
    requires multiset(a) == multiset(b)
    ensures multiset(a[..|a| - 1]) == multiset(b[..k] + b[k + 1..])
    ensures Successes(b, converting)
         == Successes(b[..k] + b[k + 1..], converting) + (if b[k] in converting then 1 else 0)
  {
    SuccessesWithout(b, k, converting);
    MultisetWithout(b, k);
    MultisetWithout(a, |a| - 1);
    assert a[..|a| - 1] + a[|a|..] == a[..|a| - 1];
  }

  /** The success count does not depend on the order the files are converted in. */
  lemma {:induction false} SuccessesPermutation(a: seq<string>, b: seq<string>, converting: set<string>)
    requires multiset(a) == multiset(b)
    ensures Successes(a, converting) == Successes(b, converting)
    decreases |a|
  {
    if a != [] {
      var x := a[|a| - 1];
      assert x in multiset(b);
      var k :| 0 <= k < |b| && b[k] == x;
      RemoveMatching(a, b, k, converting);
      SuccessesPermutation(a[..|a| - 1], b[..k] + b[k + 1..], converting);
    }
  }

  /** Every file converts exactly when the success count is the number of files. */
  lemma {:induction false} AllConvertIff(files: seq<string>, converting: set<string>)
    ensures Successes(files, converting) == |files| <==> forall i :: 0 <= i < |files| ==> files[i] in converting
    decreases |files|
  {
    if files != [] {
      var init := files[..|files| - 1];
      AllConvertIff(init, converting);
      assert forall i :: 0 <= i < |init| ==> init[i] == files[i];
    }
  }

  /** The files of a permutation of `discovered` are convertible exactly when they convert. */
  lemma ConvertibleInOrder(files: seq<string>, discovered: seq<string>, env: Env)
    requires multiset(files) == multiset(discovered)
    ensures forall i :: 0 <= i < |files| ==> (files[i] in Convertible(discovered, env) <==> Converts(env, files[i]))
  {
    forall i | 0 <= i < |files| ensures files[i] in discovered {
      assert files[i] in multiset(discovered);
    }
  }

  /** Counting one more file of the list. */
  lemma CountOne(files: seq<string>, i: int, converting: set<string>)
    requires 0 <= i < |files|
    ensures Successes(files[..i + 1], converting)
         == Successes(files[..i], converting) + (if files[i] in converting then 1 else 0)
  {
    assert files[..i + 1][..i] == files[..i];
  }

  /**
   * The batch run: with nothing discovered it reports so and converts nothing; otherwise it
   * converts every discovered file once, in sorted order (`calls`), and its counters add up to
   * the number found, the success counter counting the files that convert. The failure counter
   * is zero exactly when every file converts (the case that prints the all-success line).
   */
  method RunBatch(discovered: seq<string>, env: Env) returns (summary: Summary, ghost calls: seq<string>)
    ensures discovered == [] ==> summary == NoFiles && calls == []
    ensures discovered != [] ==> summary.Completed? && calls == Sorted(discovered)
    ensures summary.Completed? ==>
      && summary.found == |discovered|
      && summary.successCount == Successes(discovered, Convertible(discovered, env))
      && summary.successCount + summary.failCount == |discovered|
      && (summary.failCount == 0 <==> forall i :: 0 <= i < |discovered| ==> Converts(env, discovered[i]))
  {
    if |discovered| == 0 {
      return NoFiles, [];
    }

    var files := Sorted(discovered);
    ghost var converting := Convertible(discovered, env);
    ConvertibleInOrder(files, discovered, env);
    var successCount, failCount := 0, 0;
    calls := [];
    for i := 0 to |files|
      invariant calls == files[..i]
      invariant successCount == Successes(files[..i], converting)
      invariant successCount + failCount == i
    {
      var ok, outputPath, elements := GeneratePdfFromText(files[i], None, env);
      CountOne(files, i, converting);
      if ok {
        successCount := successCount + 1;
      } else {
        failCount := failCount + 1;
      }
      calls := calls + [files[i]];
    }

    assert files[..|files|] == files;
    assert |files| == |multiset(files)| == |multiset(discovered)| == |discovered|;
    SuccessesPermutation(files, discovered, converting);
    AllConvertIff(discovered, converting);
    ConvertibleInOrder(discovered, discovered, env);
    summary := Completed(|discovered|, successCount, failCount);
  }
}
