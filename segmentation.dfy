/**
 * The document the converter builds, as abstract elements instead of ReportLab
 * flowables, and a run-based definition of how the lines of a text are grouped into
 * blocks: every maximal run of non-blank lines becomes one block, every blank line
 * becomes one small spacer.
 */
module Segmentation {
  import opened PyStr

  /** One flowable of the output document. */
  datatype Element =
    | Title(text: string)           // the headline paragraph
    | BigSpacer                     // the 0.2-inch spacer under the title
    | SmallSpacer                   // the 0.1-inch spacer emitted for each blank line
    | Block(lines: seq<string>)     // a preformatted block holding '\n'.join(lines)
    | Paragraph(markup: string)     // the fallback paragraph for a block

  /** What the rendering library does with one block's text: accept it as preformatted
      text, reject it there but accept the paragraph fallback, or reject both. */
  datatype BlockRendering = AsPreformatted | AsParagraph | Dropped

  predicate AllNonBlank(lines: seq<string>) {
    forall i :: 0 <= i < |lines| ==> !IsBlank(lines[i])
  }

  /** The number of non-blank lines at the start of `lines`. */
  function RunLength(lines: seq<string>): (n: nat)
    ensures n <= |lines|
    decreases |lines|
  {
    if lines == [] || IsBlank(lines[0]) then 0 else 1 + RunLength(lines[1..])
  }

  /** The leading run is all non-blank and stops at a blank line or at the end of the input. */
  lemma {:induction false} RunLengthEndsAtBlank(lines: seq<string>)
    ensures var n := RunLength(lines);
      AllNonBlank(lines[..n]) && (n < |lines| ==> IsBlank(lines[n]))
    decreases |lines|
  {
    if lines != [] && !IsBlank(lines[0]) {
      var m := RunLength(lines[1..]);
      RunLengthEndsAtBlank(lines[1..]);
      assert lines[..1 + m] == [lines[0]] + lines[1..][..m];
    }
  }

  /** Segmentation by runs: a blank line gives a small spacer, a maximal run of non-blank lines gives one block. */
  function Segment(lines: seq<string>): seq<Element>
    decreases |lines|
  {
    if lines == [] then []
    else if IsBlank(lines[0]) then [SmallSpacer] + Segment(lines[1..])
    else
      var n := RunLength(lines);
      [Block(lines[..n])] + Segment(lines[n..])
  }

  /** Blocks are non-empty runs of non-blank lines, every other element is a small spacer,
      and a block is always followed by a spacer (or ends the sequence). */
  predicate Segmented(es: seq<Element>) {
    && (forall i :: 0 <= i < |es| ==>
          es[i] == SmallSpacer || (es[i].Block? && es[i].lines != [] && AllNonBlank(es[i].lines)))
    && (forall i :: 0 <= i < |es| - 1 && es[i].Block? ==> es[i + 1] == SmallSpacer)
  }

  function CountBlank(lines: seq<string>): nat
    decreases |lines|
  {
    if lines == [] then 0 else (if IsBlank(lines[0]) then 1 else 0) + CountBlank(lines[1..])
  }

  /** The non-blank lines, in order. */
  function NonBlank(lines: seq<string>): seq<string>
    decreases |lines|
  {
    if lines == [] then [] else (if IsBlank(lines[0]) then [] else [lines[0]]) + NonBlank(lines[1..])
  }

  function CountSmallSpacers(es: seq<Element>): nat
    decreases |es|
  {
    if es == [] then 0 else (if es[0] == SmallSpacer then 1 else 0) + CountSmallSpacers(es[1..])
  }

  /** The lines of all blocks, concatenated in order. */
  function BlockLines(es: seq<Element>): seq<string>
    decreases |es|
  {
    if es == [] then [] else (if es[0].Block? then es[0].lines else []) + BlockLines(es[1..])
  }

  // ---------------------------------------------------------------------------
  // Structural lemmas

  /** A run length is determined by the first blank line. */
  lemma {:induction false} RunLengthIs(lines: seq<string>, k: nat)
    requires k <= |lines| && AllNonBlank(lines[..k])
    requires k < |lines| ==> IsBlank(lines[k])
    ensures RunLength(lines) == k
    decreases k
  {
    if k > 0 {
      assert lines[0] == lines[..k][0];
      RunLengthIs(lines[1..], k - 1);
    }
  }

  /** A run of non-blank lines followed by nothing or by a blank line becomes exactly one block. */
  lemma SegmentOfRun(run: seq<string>, rest: seq<string>)
    requires run != [] && AllNonBlank(run)
    requires rest == [] || IsBlank(rest[0])
    ensures Segment(run + rest) == [Block(run)] + Segment(rest)
  {
    var lines := run + rest;
    assert lines[..|run|] == run;
    RunLengthIs(lines, |run|);
    assert lines[|run|..] == rest;
  }

  /** Segmentation restarts cleanly after a blank line: it distributes over a cut there. */
  lemma {:induction false} SegmentAfterCut(p: seq<string>, q: seq<string>)
    requires p == [] || IsBlank(p[|p| - 1])
    ensures Segment(p + q) == Segment(p) + Segment(q)
    decreases |p|, 1
  {
    if p == [] {
      assert p + q == q;
    } else if IsBlank(p[0]) {
      BlankAfterCut(p, q);
    } else {
      RunAfterCut(p, q);
    }
  }

  /** `SegmentAfterCut` when `p` starts with a blank line. */
  lemma {:induction false} BlankAfterCut(p: seq<string>, q: seq<string>)
    requires p != [] && IsBlank(p[0]) && IsBlank(p[|p| - 1])
    ensures Segment(p + q) == Segment(p) + Segment(q)
    decreases |p|, 0
  {
    LeadingBlankBeforeCut(p, q);
    SegmentAfterCut(p[1..], q);
    var rest := Segment(p[1..]);
    assert [SmallSpacer] + (rest + Segment(q)) == [SmallSpacer] + rest + Segment(q);
  }

  /** `SegmentAfterCut` when `p` starts with a run of non-blank lines. */
  lemma {:induction false} RunAfterCut(p: seq<string>, q: seq<string>)
    requires p != [] && !IsBlank(p[0]) && IsBlank(p[|p| - 1])
    ensures Segment(p + q) == Segment(p) + Segment(q)
    decreases |p|, 0
  {
    var m := RunLength(p);
    LeadingRunBeforeCut(p, q);
    SegmentAfterCut(p[m..], q);
    var head, rest := [Block(p[..m])], Segment(p[m..]);
    assert head + (rest + Segment(q)) == head + rest + Segment(q);
  }

  /** A leading blank line of `p + q` is the spacer that starts `Segment(p)`. */
  lemma LeadingBlankBeforeCut(p: seq<string>, q: seq<string>)
    requires p != [] && IsBlank(p[0]) && IsBlank(p[|p| - 1])
    ensures Segment(p + q) == [SmallSpacer] + Segment(p[1..] + q)
    ensures Segment(p) == [SmallSpacer] + Segment(p[1..])
    ensures p[1..] == [] || IsBlank(p[1..][|p| - 2])
  {
    assert (p + q)[0] == p[0] && (p + q)[1..] == p[1..] + q;
  }

  /** A leading run of `p + q` that ends inside `p` is the block that starts `Segment(p)`. */
  lemma LeadingRunBeforeCut(p: seq<string>, q: seq<string>)
    requires p != [] && !IsBlank(p[0]) && IsBlank(p[|p| - 1])
    ensures var m := RunLength(p);
      && m < |p|
      && Segment(p + q) == [Block(p[..m])] + Segment(p[m..] + q)
      && Segment(p) == [Block(p[..m])] + Segment(p[m..])
      && IsBlank(p[m..][|p| - m - 1])
  {
    var m := RunLength(p);
    RunLengthEndsAtBlank(p);
    assert forall j :: 0 <= j < m ==> p[..m][j] == p[j];
    assert (p + q)[..m] == p[..m] && (p + q)[m] == p[m];
    RunLengthIs(p + q, m);
    assert (p + q)[0] == p[0] && (p + q)[m..] == p[m..] + q;
    assert p[m..][|p| - m - 1] == p[|p| - 1];
  }

  /** The first element of a segmentation that starts at a blank line is a small spacer. */
  lemma SegmentStartsWithSpacer(lines: seq<string>)
    requires lines != [] && IsBlank(lines[0])
    ensures Segment(lines) != [] && Segment(lines)[0] == SmallSpacer
  {
  }

  // ---------------------------------------------------------------------------
  // Properties of the segmentation

  /** Every block is a non-empty run of non-blank lines, and consecutive blocks are separated by at least one spacer. */
  lemma {:induction false} SegmentIsSegmented(lines: seq<string>)
    ensures Segmented(Segment(lines))
    decreases |lines|
  {
    if lines != [] {
      if IsBlank(lines[0]) {
        SegmentIsSegmented(lines[1..]);
      } else {
        var n := RunLength(lines);
        RunLengthEndsAtBlank(lines);
        var tail := Segment(lines[n..]);
        SegmentIsSegmented(lines[n..]);
        if n < |lines| {
          SegmentStartsWithSpacer(lines[n..]);
        }
        var r := [Block(lines[..n])] + tail;
        forall i | 0 <= i < |r| - 1 && r[i].Block? ensures r[i + 1] == SmallSpacer {
          if i > 0 {
            assert r[i] == tail[i - 1] && r[i + 1] == tail[i];
          }
        }
      }
    }
  }

  /** `CountBlank` skips a leading run of non-blank lines. */
  lemma {:induction false} CountBlankAfterRun(lines: seq<string>, n: nat)
    requires n <= |lines| && AllNonBlank(lines[..n])
    ensures CountBlank(lines) == CountBlank(lines[n..])
    decreases n
  {
    if n > 0 {
      assert lines[0] == lines[..n][0];
      CountBlankAfterRun(lines[1..], n - 1);
      assert lines[1..][n - 1..] == lines[n..];
    }
  }

  /** `NonBlank` keeps a leading run of non-blank lines whole. */
  lemma {:induction false} NonBlankAfterRun(lines: seq<string>, n: nat)
    requires n <= |lines| && AllNonBlank(lines[..n])
    ensures NonBlank(lines) == lines[..n] + NonBlank(lines[n..])
    decreases n
  {
    if n > 0 {
      assert lines[0] == lines[..n][0];
      NonBlankAfterRun(lines[1..], n - 1);
      assert lines[1..][n - 1..] == lines[n..];
      assert lines[..n] == [lines[0]] + lines[1..n];
    }
  }

  /** Each blank line contributes exactly one small spacer, whether or not it closed a block. */
  lemma {:induction false} SmallSpacersCountBlankLines(lines: seq<string>)
    ensures CountSmallSpacers(Segment(lines)) == CountBlank(lines)
    decreases |lines|
  {
    if lines != [] {
      if IsBlank(lines[0]) {
        SmallSpacersCountBlankLines(lines[1..]);
      } else {
        var n := RunLength(lines);
        RunLengthEndsAtBlank(lines);
        SmallSpacersCountBlankLines(lines[n..]);
        CountBlankAfterRun(lines, n);
        var r := [Block(lines[..n])] + Segment(lines[n..]);
        assert r[1..] == Segment(lines[n..]);
      }
    }
  }

  /** The blocks, flattened, are exactly the non-blank lines of the input, in their input order. */
  lemma {:induction false} BlocksHoldNonBlankLines(lines: seq<string>)
    ensures BlockLines(Segment(lines)) == NonBlank(lines)
    decreases |lines|
  {
    if lines != [] {
      if IsBlank(lines[0]) {
        BlocksHoldNonBlankLines(lines[1..]);
      } else {
        var n := RunLength(lines);
        RunLengthEndsAtBlank(lines);
        BlocksHoldNonBlankLines(lines[n..]);
        NonBlankAfterRun(lines, n);
        var r := [Block(lines[..n])] + Segment(lines[n..]);
        assert r[1..] == Segment(lines[n..]);
      }
    }
  }

  /** The last element reflects the last line: a spacer after a final blank line, otherwise the
      final block, which ends with the last line (no spacer follows it). */
  lemma {:induction false} SegmentEndsLikeInput(lines: seq<string>)
    requires lines != []
    ensures var r := Segment(lines);
      && r != []
      && (IsBlank(lines[|lines| - 1]) ==> r[|r| - 1] == SmallSpacer)
      && (!IsBlank(lines[|lines| - 1]) ==>
            r[|r| - 1].Block? && r[|r| - 1].lines != []
            && r[|r| - 1].lines[|r[|r| - 1].lines| - 1] == lines[|lines| - 1])
    decreases |lines|
  {
    var r := Segment(lines);
    var last := lines[|lines| - 1];
    if IsBlank(lines[0]) {
      if |lines| > 1 {
        var t := Segment(lines[1..]);
        SegmentEndsLikeInput(lines[1..]);
        assert r == [SmallSpacer] + t;
        assert lines[1..][|lines| - 2] == last;
        assert r[|r| - 1] == t[|t| - 1];
      }
    } else {
      var n := RunLength(lines);
      RunLengthEndsAtBlank(lines);
      var t := Segment(lines[n..]);
      assert r == [Block(lines[..n])] + t;
      if n == |lines| {
        assert lines[..n] == lines;
        assert t == [];
      } else {
        SegmentEndsLikeInput(lines[n..]);
        assert lines[n..][|lines| - n - 1] == last;
        assert r[|r| - 1] == t[|t| - 1];
      }
    }
  }

  /** Input made only of blank lines gives one small spacer per line and no block. */
  lemma {:induction false} AllBlankGivesOnlySpacers(lines: seq<string>)
    requires forall i :: 0 <= i < |lines| ==> IsBlank(lines[i])
    ensures Segment(lines) == seq(|lines|, _ => SmallSpacer)
    decreases |lines|
  {
    if lines != [] {
      AllBlankGivesOnlySpacers(lines[1..]);
      assert [SmallSpacer] + seq(|lines| - 1, _ => SmallSpacer) == seq(|lines|, _ => SmallSpacer);
    }
  }

  /** Input without blank lines gives exactly one block holding every line. */
  lemma NoBlankGivesOneBlock(lines: seq<string>)
    requires lines != [] && AllNonBlank(lines)
    ensures Segment(lines) == [Block(lines)]
  {
    SegmentOfRun(lines, []);
    assert lines + [] == lines;
  }

  /** Two paragraphs separated by one blank line: block, spacer, block, and no trailing spacer. */
  lemma TwoParagraphs(first: seq<string>, blank: string, second: seq<string>)
    requires first != [] && AllNonBlank(first)
    requires second != [] && AllNonBlank(second)
    requires IsBlank(blank)
    ensures Segment(first + [blank] + second) == [Block(first), SmallSpacer, Block(second)]
  {
    var rest := [blank] + second;
    assert first + [blank] + second == first + rest;
    SegmentOfRun(first, rest);
    assert rest[1..] == second;
    NoBlankGivesOneBlock(second);
    assert Segment(rest) == [SmallSpacer] + [Block(second)];
  }

  // ---------------------------------------------------------------------------
  // Rendering a block, with the paragraph fallback

  /** The text handed to `Preformatted`: `'\n'.join(lines)`. */
  function BlockText(lines: seq<string>): string {
    Join(lines, "\n")
  }

  /** The markup of the fallback paragraph: the block text with each newline replaced by `<br/>`. */
  function FallbackMarkup(lines: seq<string>): string {
    Replace(BlockText(lines), "\n", "<br/>")
  }

  /** The elements one closed block contributes: the preformatted block, its fallback paragraph, or nothing. */
  function RenderBlock(lines: seq<string>, render: string -> BlockRendering): seq<Element> {
    match render(BlockText(lines))
    case AsPreformatted => [Block(lines)]
    case AsParagraph => [Paragraph(FallbackMarkup(lines))]
    case Dropped => []
  }

  /** Renders every block of a document; the other elements pass through. */
  function Render(es: seq<Element>, render: string -> BlockRendering): seq<Element>
    decreases |es|
  {
    if es == [] then []
    else (if es[0].Block? then RenderBlock(es[0].lines, render) else [es[0]]) + Render(es[1..], render)
  }

  lemma {:induction false} RenderConcat(a: seq<Element>, b: seq<Element>, render: string -> BlockRendering)
    ensures Render(a + b, render) == Render(a, render) + Render(b, render)
    decreases |a|
  {
    if a != [] {
      var head := if a[0].Block? then RenderBlock(a[0].lines, render) else [a[0]];
      assert (a + b)[0] == a[0] && (a + b)[1..] == a[1..] + b;
      RenderConcat(a[1..], b, render);
      assert Render(a + b, render) == head + Render(a[1..] + b, render);
      assert Render(a, render) == head + Render(a[1..], render);
    } else {
      assert a + b == b;
    }
  }

  /** When every block renders as preformatted text, the document is the abstract document itself. */
  lemma {:induction false} RenderAllPreformatted(es: seq<Element>, render: string -> BlockRendering)
    requires forall text :: render(text) == AsPreformatted
    ensures Render(es, render) == es
    decreases |es|
  {
    if es != [] {
      RenderAllPreformatted(es[1..], render);
      assert es == [es[0]] + es[1..];
    }
  }

  /**
   * The elements a closed block contributes; nothing for an empty block. This is the
   * specification of the flush at generate_pdf.py lines 84-95 and 100-109, which the
   * converter's `FlushBlock` method performs.
   */
  function Flush(block: seq<string>, render: string -> BlockRendering): seq<Element> {
    if block == [] then [] else RenderBlock(block, render)
  }

  /** A run of non-blank lines (possibly empty) closed by a blank line: the run's block, then a spacer. */
  lemma RenderedRunThenBlank(block: seq<string>, blank: string, render: string -> BlockRendering)
    requires AllNonBlank(block) && IsBlank(blank)
    ensures Render(Segment(block + [blank]), render) == Flush(block, render) + [SmallSpacer]
  {
    if block == [] {
      assert block + [blank] == [blank];
    } else {
      SegmentOfRun(block, [blank]);
      assert Segment(block + [blank]) == [Block(block)] + [SmallSpacer];
      RenderConcat([Block(block)], [SmallSpacer], render);
    }
  }

  /**
   * Line `i` is blank and the lines since the last cut `k` are not: the run (if any) is
   * emitted as one block, then one small spacer, exactly as `Segment` groups the lines.
   */
  lemma RenderedSegmentAtBlank(lines: seq<string>, k: nat, i: nat, render: string -> BlockRendering)
    requires k <= i < |lines|
    requires k == 0 || IsBlank(lines[k - 1])
    requires AllNonBlank(lines[k..i]) && IsBlank(lines[i])
    ensures Render(Segment(lines[..i + 1]), render)
         == Render(Segment(lines[..k]), render) + Flush(lines[k..i], render) + [SmallSpacer]
  {
    var prefix, closed := lines[..k], lines[k..i + 1];
    assert lines[..i + 1] == prefix + closed;
    assert closed == lines[k..i] + [lines[i]];
    SegmentAfterCut(prefix, closed);
    RenderConcat(Segment(prefix), Segment(closed), render);
    RenderedRunThenBlank(lines[k..i], lines[i], render);
  }

  /** A run of non-blank lines renders as its flushed block. */
  lemma RenderedRun(run: seq<string>, render: string -> BlockRendering)
    requires AllNonBlank(run)
    ensures Render(Segment(run), render) == Flush(run, render)
  {
    if run != [] {
      NoBlankGivesOneBlock(run);
      assert [Block(run)][1..] == [];
    }
  }

  /** A final run of non-blank lines after a cut renders as its flushed block. */
  lemma RenderedRunAfterCut(prefix: seq<string>, run: seq<string>, render: string -> BlockRendering)
    requires prefix == [] || IsBlank(prefix[|prefix| - 1])
    requires AllNonBlank(run)
    ensures Render(Segment(prefix + run), render) == Render(Segment(prefix), render) + Flush(run, render)
  {
    SegmentAfterCut(prefix, run);
    RenderConcat(Segment(prefix), Segment(run), render);
    RenderedRun(run, render);
  }

  /**
   * The lines since the last cut `k` up to `j` are all non-blank: rendering the input up to
   * `j` gives the rendering up to the cut, then that run (if any) flushed as one block.
   */
  lemma RenderedSegmentInRun(lines: seq<string>, k: nat, j: nat, render: string -> BlockRendering)
    requires k <= j <= |lines|
    requires k == 0 || IsBlank(lines[k - 1])
    requires AllNonBlank(lines[k..j])
    ensures Render(Segment(lines[..j]), render) == Render(Segment(lines[..k]), render) + Flush(lines[k..j], render)
  {
    var prefix, run := lines[..k], lines[k..j];
    assert lines[..j] == prefix + run;
    assert k == 0 || prefix[k - 1] == lines[k - 1];
    RenderedRunAfterCut(prefix, run, render);
  }

  /** The title and the spacers of a document, in order. */
  function Spacing(es: seq<Element>): seq<Element>
    decreases |es|
  {
    if es == [] then []
    else (if es[0].Block? || es[0].Paragraph? then [] else [es[0]]) + Spacing(es[1..])
  }

  /** A failed block never takes a spacer or the title with it: rendering only replaces or drops blocks. */
  lemma {:induction false} RenderKeepsSpacing(es: seq<Element>, render: string -> BlockRendering)
    ensures Spacing(Render(es, render)) == Spacing(es)
    decreases |es|
  {
    if es != [] {
      var head := if es[0].Block? then RenderBlock(es[0].lines, render) else [es[0]];
      RenderKeepsSpacing(es[1..], render);
      SpacingConcat(head, Render(es[1..], render));
    }
  }

  lemma {:induction false} SpacingConcat(a: seq<Element>, b: seq<Element>)
    ensures Spacing(a + b) == Spacing(a) + Spacing(b)
    decreases |a|
  {
    if a != [] {
      var head := if a[0].Block? || a[0].Paragraph? then [] else [a[0]];
      assert (a + b)[0] == a[0] && (a + b)[1..] == a[1..] + b;
      SpacingConcat(a[1..], b);
      assert Spacing(a + b) == head + Spacing(a[1..] + b);
    } else {
      assert a + b == b;
    }
  }

  /** The fallback paragraph joins the lines of the block with `<br/>`. */
  lemma {:induction false} FallbackJoinsWithBreaks(lines: seq<string>)
    requires forall i :: 0 <= i < |lines| ==> '\n' !in lines[i]
    ensures FallbackMarkup(lines) == Join(lines, "<br/>")
    decreases |lines|
  {
    if lines == [] {
      assert !OccursAt([], "\n", 0);
      ReplaceWithoutMatch([], "\n", "<br/>");
    } else if |lines| == 1 {
      WithoutHeadNoMatch(lines[0], "\n");
      ReplaceWithoutMatch(lines[0], "\n", "<br/>");
    } else {
      WithoutHeadNoMatch(lines[0], "\n");
      FallbackJoinsWithBreaks(lines[1..]);
      ReplaceAtFirstMatch(lines[0], "\n", "<br/>", Join(lines[1..], "\n"));
    }
  }
}
