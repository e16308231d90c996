/** The rendering core of `pdf_to_markdown`: the pages of an opened PDF, as
    the block/line/span dictionaries of `page.get_text("dict")`, turned into a
    list of Markdown pieces that is concatenated into the written content.
    Opening the PDF, deriving the output path and writing the file are left to
    the caller. */
module PdfMarkdown {
  import opened Wrappers
  import opened PyText

  /** A span: its text and its `flags` entry, which may be missing. */
  datatype Span = Span(text: string, flags: Option<int>)

  datatype Line = Line(spans: seq<Span>)

  /** A block: `lines` is present when the dict has a "lines" key, `image`
      says whether it has an "image" key. */
  datatype Block = Block(lines: Option<seq<Line>>, image: bool)

  datatype Page = Page(blocks: seq<Block>)

  /** The opened document: the path's stem and name, and its pages. */
  datatype Pdf = Pdf(stem: string, name: string, pages: seq<Page>)

  const BoldFlag: nat := 16
  const ItalicFlag: nat := 2

  /** `span.get("flags", 0)`. */
  function FlagsOf(span: Span): int {
    span.flags.GetOr(0)
  }

  /** `flags & bit` is non-zero, for `bit` a power of two: shift right one
      bit at a time until `bit` is the lowest bit, then test it. Euclidean
      division by 2 floors, which matches Python's two's-complement `&` on
      negative integers. */
  predicate FlagSet(flags: int, bit: nat)
    requires bit > 0
    decreases bit
  {
    if bit == 1 then flags % 2 == 1 else FlagSet(flags / 2, bit / 2)
  }

  /** Testing a single bit by halving agrees with reading it off the floor
      quotient, for the two flag bits the renderer tests. */
  lemma FlagSetReadsBit(flags: int)
    ensures FlagSet(flags, BoldFlag) <==> (flags / 16) % 2 == 1
    ensures FlagSet(flags, ItalicFlag) <==> (flags / 2) % 2 == 1
  {
    assert flags / 2 / 2 == flags / 4;
    assert flags / 4 / 2 == flags / 8;
    assert flags / 8 / 2 == flags / 16;
  }

  /** Every bit of `-flags - 1` (that is, `~flags`) is the opposite of the
      same bit of `flags`: the two's-complement law Python's `&` obeys on
      negative integers. */
  lemma {:induction false} FlagSetComplement(flags: int, bit: nat)
    requires bit > 0
    ensures FlagSet(-flags - 1, bit) <==> !FlagSet(flags, bit)
    decreases bit
  {
    if bit != 1 {
      assert (-flags - 1) / 2 == -(flags / 2) - 1;
      FlagSetComplement(flags / 2, bit / 2);
    }
  }

  predicate IsBold(span: Span) {
    FlagSet(FlagsOf(span), BoldFlag)
  }

  predicate IsItalic(span: Span) {
    FlagSet(FlagsOf(span), ItalicFlag)
  }

  /** A span's Markdown: bold wraps in `**`, then italic wraps the possibly
      bolded text in `*`, so a bold italic span becomes `***text***`. */
  function RenderSpan(span: Span): (r: string)
    ensures IsBold(span) && IsItalic(span) ==> r == "***" + span.text + "***"
    ensures IsBold(span) && !IsItalic(span) ==> r == "**" + span.text + "**"
    ensures !IsBold(span) && IsItalic(span) ==> r == "*" + span.text + "*"
    ensures !IsBold(span) && !IsItalic(span) ==> r == span.text
  {
    var text := span.text;
    var text := if IsBold(span) then "**" + text + "**" else text;
    if IsItalic(span) then "*" + text + "*" else text
  }

  /** How many `*` a span's Markdown puts on each side of its text. */
  function MarkerWidth(span: Span): nat {
    (if IsBold(span) then 2 else 0) + (if IsItalic(span) then 1 else 0)
  }

  /** A rendered span is its text wrapped in the same number of `*` on each
      side, so dropping that many characters from both ends gives the text
      back. */
  lemma RenderSpanUnwraps(span: Span)
    ensures var r := RenderSpan(span);
            var w := MarkerWidth(span);
            && |r| == |span.text| + 2 * w
            && r[w..|r| - w] == span.text
            && (forall k :: 0 <= k < w ==> r[k] == '*')
            && (forall k :: |r| - w <= k < |r| ==> r[k] == '*')
  {
    var r := RenderSpan(span);
    var w := MarkerWidth(span);
    assert r == Stars(w) + span.text + Stars(w);
  }

  /** `w` asterisks. */
  function Stars(w: nat): (r: string)
    ensures |r| == w
    ensures forall k :: 0 <= k < w ==> r[k] == '*'
  {
    if w == 0 then "" else "*" + Stars(w - 1)
  }

  /** The rendered spans of a line, in order. */
  function SpanPieces(spans: seq<Span>): (r: seq<string>)
    ensures |r| == |spans|
    ensures forall k :: 0 <= k < |spans| ==> r[k] == RenderSpan(spans[k])
  {
    if spans == [] then [] else SpanPieces(spans[..|spans| - 1]) + [RenderSpan(spans[|spans| - 1])]
  }

  /** `"".join(line_text)`: the spans of a line with no separator. */
  function RenderLine(line: Line): string {
    Concat(SpanPieces(line.spans))
  }

  /** The `paragraph` list of a text block: one rendered line per line that
      has at least one span; lines without spans contribute nothing. */
  function Paragraph(lines: seq<Line>): (r: seq<string>)
    ensures |r| <= |lines|
    ensures r == [] <==> forall k :: 0 <= k < |lines| ==> lines[k].spans == []
  {
    if lines == [] then []
    else
      var last := lines[|lines| - 1];
      Paragraph(lines[..|lines| - 1]) + (if last.spans == [] then [] else [RenderLine(last)])
  }

  function ImagePlaceholder(pageNumber: nat): string {
    "![Image on page " + DecimalString(pageNumber) + "]\n\n"
  }

  /** What one block adds to the content of page `pageNumber` (1-based). */
  function BlockPieces(block: Block, pageNumber: nat): seq<string> {
    match block.lines
    case Some(lines) =>
      var paragraph := Paragraph(lines);
      if paragraph == [] then []
      else
        var text := Strip(Join(" ", paragraph));
        if text == [] then [] else [text + "\n\n"]
    case None =>
      if block.image then [ImagePlaceholder(pageNumber)] else []
  }

  /** A text block adds its lines joined by one space and stripped, followed
      by a blank line, and only when something other than whitespace is left;
      its "image" key plays no part. */
  lemma TextBlockEmission(lines: seq<Line>, image: bool, pageNumber: nat)
    ensures var r := BlockPieces(Block(Some(lines), image), pageNumber);
            var joined := Join(" ", Paragraph(lines));
            && (r == [] <==> AllSpace(joined))
            && (r != [] ==> r == [Strip(joined) + "\n\n"])
  {
    if Paragraph(lines) == [] {
      assert Join(" ", Paragraph(lines)) == "";
    }
  }

  /** A block with "image" but no "lines" adds one placeholder whose number
      reads back as the 1-based page number; any other block without "lines"
      adds nothing. */
  lemma ImageBlockEmission(image: bool, pageNumber: nat)
    ensures var r := BlockPieces(Block(None, image), pageNumber);
            && (image ==> |r| == 1 && |r[0]| >= 19 && r[0][..16] == "![Image on page " && r[0][|r[0]| - 3..] == "]\n\n"
                          && var digits := r[0][16..|r[0]| - 3];
                             && (forall k :: 0 <= k < |digits| ==> IsDigit(digits[k]))
                             && DecimalValue(digits) == pageNumber)
            && (!image ==> r == [])
  {
    if image {
      var d := DecimalString(pageNumber);
      var ph := ImagePlaceholder(pageNumber);
      assert ph[16..|ph| - 3] == d;
      DecimalRoundTrip(pageNumber);
    }
  }

  /** The pieces of a page's blocks, in block order. */
  function BlocksPieces(blocks: seq<Block>, pageNumber: nat): seq<string> {
    if blocks == [] then []
    else BlocksPieces(blocks[..|blocks| - 1], pageNumber) + BlockPieces(blocks[|blocks| - 1], pageNumber)
  }

  /** The pieces of consecutive runs of blocks follow one another: each
      block's pieces appear in block order. */
  lemma BlocksPiecesAppend(a: seq<Block>, b: seq<Block>, pageNumber: nat)
    ensures BlocksPieces(a + b, pageNumber) == BlocksPieces(a, pageNumber) + BlocksPieces(b, pageNumber)
  {
    var f := block => BlockPieces(block, pageNumber);
    BlocksPiecesFlatten(a + b, pageNumber);
    BlocksPiecesFlatten(a, pageNumber);
    BlocksPiecesFlatten(b, pageNumber);
    FlattenAppend(f, a, b);
  }

  /** `BlocksPieces` is `BlockPieces` applied to each block, concatenated. */
  lemma {:induction false} BlocksPiecesFlatten(blocks: seq<Block>, pageNumber: nat)
    ensures BlocksPieces(blocks, pageNumber) == Flatten(block => BlockPieces(block, pageNumber), blocks)
    decreases |blocks|
  {
    if blocks != [] {
      BlocksPiecesFlatten(blocks[..|blocks| - 1], pageNumber);
    }
  }

  /** `f` applied to each element, the results concatenated in order. */
  function Flatten<T>(f: T -> seq<string>, xs: seq<T>): seq<string> {
    if xs == [] then [] else Flatten(f, xs[..|xs| - 1]) + f(xs[|xs| - 1])
  }

  lemma {:induction false} FlattenAppend<T>(f: T -> seq<string>, a: seq<T>, b: seq<T>)
    ensures Flatten(f, a + b) == Flatten(f, a) + Flatten(f, b)
    decreases |b|
  {
    if b == [] {
      assert a + b == a;
    } else {
      var b' := b[..|b| - 1];
      assert (a + b)[..|a + b| - 1] == a + b';
      assert (a + b)[|a + b| - 1] == b[|b| - 1];
      FlattenAppend(f, a, b');
    }
  }

  function PageHeader(pageNumber: nat): string {
    "\n## Page " + DecimalString(pageNumber) + "\n\n"
  }

  /** The pieces of the page at 0-based `index`: its header, numbered
      `index + 1`, then its blocks. */
  function PagePieces(page: Page, index: nat): seq<string> {
    [PageHeader(index + 1)] + BlocksPieces(page.blocks, index + 1)
  }

  /** The pieces of all pages, in index order. */
  function PagesPieces(pages: seq<Page>): seq<string> {
    if pages == [] then []
    else PagesPieces(pages[..|pages| - 1]) + PagePieces(pages[|pages| - 1], |pages| - 1)
  }

  /** The four fixed header pieces: title from the stem, source name, total
      page count, separator. */
  function HeaderPieces(pdf: Pdf): seq<string> {
    [ "# " + pdf.stem + "\n",
      "*Converted from: " + pdf.name + "*\n",
      "*Total pages: " + DecimalString(|pdf.pages|) + "*\n\n",
      "---\n\n" ]
  }

  /** `markdown_content`: the header pieces, then every page's pieces. */
  function DocumentPieces(pdf: Pdf): seq<string> {
    HeaderPieces(pdf) + PagesPieces(pdf.pages)
  }

  /** The written content: `"".join(markdown_content)`. */
  function Markdown(pdf: Pdf): string {
    Concat(DocumentPieces(pdf))
  }

  // ---------------------------------------------------------------------
  // Properties
  // ---------------------------------------------------------------------

  /** Rendering spans distributes over concatenating span lists. */
  lemma SpanPiecesAppend(a: seq<Span>, b: seq<Span>)
    ensures SpanPieces(a + b) == SpanPieces(a) + SpanPieces(b)
  {
    var r, s := SpanPieces(a + b), SpanPieces(a) + SpanPieces(b);
    forall k | 0 <= k < |r| ensures r[k] == s[k] {
      if k < |a| {
        assert (a + b)[k] == a[k];
      } else {
        assert (a + b)[k] == b[k - |a|];
      }
    }
  }

  /** Spans are concatenated with no separator: splitting a line's spans
      splits its rendering. */
  lemma LineIsConcatenationOfSpans(a: seq<Span>, b: seq<Span>)
    ensures RenderLine(Line(a + b)) == RenderLine(Line(a)) + RenderLine(Line(b))
  {
    SpanPiecesAppend(a, b);
    ConcatAppend(SpanPieces(a), SpanPieces(b));
  }

  /** A line without spans adds nothing to a paragraph, wherever it stands. */
  lemma {:induction false} ParagraphAppend(a: seq<Line>, b: seq<Line>)
    ensures Paragraph(a + b) == Paragraph(a) + Paragraph(b)
    decreases |b|
  {
    if b == [] {
      assert a + b == a;
    } else {
      var init, last := b[..|b| - 1], b[|b| - 1];
      assert b == init + [last];
      assert a + b == (a + init) + [last];
      calc {
        Paragraph(a + b);
        Paragraph((a + init) + [last]);
        { ParagraphSnoc(a + init, last); }
        Paragraph(a + init) + Paragraph([last]);
        { ParagraphAppend(a, init); }
        Paragraph(a) + Paragraph(init) + Paragraph([last]);
        { ParagraphSnoc(init, last); }
        Paragraph(a) + Paragraph(b);
      }
    }
  }

  /** One step of the loop over lines: appending a line appends its entry. */
  lemma ParagraphSnoc(lines: seq<Line>, last: Line)
    ensures Paragraph(lines + [last]) == Paragraph(lines) + Paragraph([last])
  {
    var all := lines + [last];
    assert all[..|all| - 1] == lines;
    assert all[|all| - 1] == last;
    assert [last][..0] == [];
  }

  /** A single line contributes its spans joined with no separator, or
      nothing when it has no spans; with `ParagraphAppend` this fixes the
      paragraph of every list of lines. */
  lemma ParagraphOfLine(line: Line)
    ensures Paragraph([line]) == if line.spans == [] then [] else [Concat(SpanPieces(line.spans))]
  {
  }

  /** The `k`-th entry of a paragraph is the rendering of the `k`-th line that
      has spans: the lines before it contribute exactly `k` entries. */
  lemma {:induction false} ParagraphEntry(lines: seq<Line>, i: nat)
    requires i < |lines| && lines[i].spans != []
    ensures var k := |Paragraph(lines[..i])|;
            k < |Paragraph(lines)| && Paragraph(lines)[k] == RenderLine(lines[i])
  {
    var k := |Paragraph(lines[..i])|;
    assert lines == lines[..i] + [lines[i]] + lines[i + 1..];
    ParagraphAppend(lines[..i] + [lines[i]], lines[i + 1..]);
    ParagraphAppend(lines[..i], [lines[i]]);
    ParagraphOfLine(lines[i]);
  }

  /** A span that renders as whitespace only: no emphasis, whitespace text. */
  predicate BlankSpan(span: Span) {
    !IsBold(span) && !IsItalic(span) && AllSpace(span.text)
  }

  predicate BlankLine(line: Line) {
    forall m :: 0 <= m < |line.spans| ==> BlankSpan(line.spans[m])
  }

  /** A block whose lines have no spans, or only unemphasised whitespace
      text, emits nothing, whatever its "image" key says. */
  lemma BlankParagraphDropped(lines: seq<Line>, pageNumber: nat)
    requires forall k :: 0 <= k < |lines| ==> BlankLine(lines[k])
    ensures BlockPieces(Block(Some(lines), false), pageNumber) == []
    ensures BlockPieces(Block(Some(lines), true), pageNumber) == []
  {
    BlankParagraph(lines);
  }

  lemma {:induction false} BlankParagraph(lines: seq<Line>)
    requires forall k :: 0 <= k < |lines| ==> BlankLine(lines[k])
    ensures AllSpace(Join(" ", Paragraph(lines)))
  {
    if lines != [] {
      var init := lines[..|lines| - 1];
      var last := lines[|lines| - 1];
      assert forall k :: 0 <= k < |init| ==> init[k] == lines[k];
      BlankParagraph(init);
      if last.spans != [] {
        var before := Join(" ", Paragraph(init));
        var line := RenderLine(last);
        BlankLineRenders(last.spans);
        assert Paragraph(lines) == Paragraph(init) + [line];
        JoinSnoc(" ", Paragraph(init), line);
        if Paragraph(init) != [] {
          AllSpaceAppend(before, " ");
          AllSpaceAppend(before + " ", line);
        }
      } else {
        assert Paragraph(lines) == Paragraph(init);
      }
    }
  }

  lemma {:induction false} BlankLineRenders(spans: seq<Span>)
    requires BlankLine(Line(spans))
    ensures AllSpace(RenderLine(Line(spans)))
  {
    if spans != [] {
      var init := spans[..|spans| - 1];
      var last := spans[|spans| - 1];
      assert BlankLine(Line(init)) by {
        forall m | 0 <= m < |init| ensures BlankSpan(init[m]) {
          assert init[m] == spans[m];
        }
      }
      BlankLineRenders(init);
      assert spans == init + [last];
      LineIsConcatenationOfSpans(init, [last]);
      assert BlankSpan(last);
      assert RenderLine(Line([last])) == last.text by {
        assert SpanPieces([last]) == [RenderSpan(last)];
      }
      AllSpaceAppend(RenderLine(Line(init)), last.text);
    }
  }

  lemma AllSpaceAppend(a: string, b: string)
    requires AllSpace(a) && AllSpace(b)
    ensures AllSpace(a + b)
  {
    forall k | 0 <= k < |a + b| ensures IsSpace((a + b)[k]) {
      if k < |a| { assert (a + b)[k] == a[k]; } else { assert (a + b)[k] == b[k - |a|]; }
    }
  }

  lemma {:induction false} PagesPiecesPrefix(pages: seq<Page>, i: nat)
    requires i <= |pages|
    ensures PagesPieces(pages[..i]) <= PagesPieces(pages)
    decreases |pages| - i
  {
    if i < |pages| {
      PagesPiecesPrefix(pages, i + 1);
      assert pages[..i + 1][..i] == pages[..i];
    } else {
      assert pages[..i] == pages;
    }
  }

  /** Within the pages' pieces, page `i`'s header follows exactly the pieces
      of pages `0..i-1`. */
  lemma PagesPiecesAt(pages: seq<Page>, i: nat)
    requires i < |pages|
    ensures var k := |PagesPieces(pages[..i])|;
            && k < |PagesPieces(pages)|
            && PagesPieces(pages)[k] == PageHeader(i + 1)
            && PagesPieces(pages)[..k] == PagesPieces(pages[..i])
  {
    PagesPiecesPrefix(pages, i + 1);
    var before := PagesPieces(pages[..i]);
    var page := PagePieces(pages[i], i);
    assert pages[..i + 1][..i] == pages[..i];
    assert pages[..i + 1][i] == pages[i];
    assert PagesPieces(pages[..i + 1]) == before + page;
    PrefixAt(before, page, PagesPieces(pages));
  }

  /** Where `a + b` is a prefix of `all`, `b`'s first element sits at `|a|`
      in `all`, after exactly `a`. */
  lemma PrefixAt<T>(a: seq<T>, b: seq<T>, all: seq<T>)
    requires a + b <= all && b != []
    ensures |a| < |all| && all[|a|] == b[0] && all[..|a|] == a
  {
    assert (a + b)[|a|] == b[0];
    assert all[..|a|] == (a + b)[..|a|] == a;
  }

  /** Pages are rendered in index order, each after its 1-based header:
      everything before the header of page `i` is exactly the rendering of
      the first `i` pages (with the same header), and the header itself reads
      back as the number `i + 1`. */
  lemma PageHeaderPosition(pdf: Pdf, i: nat)
    requires i < |pdf.pages|
    ensures var pieces := DocumentPieces(pdf);
            var k := |HeaderPieces(pdf)| + |PagesPieces(pdf.pages[..i])|;
            && k < |pieces|
            && pieces[k] == PageHeader(i + 1)
            && pieces[..k] == HeaderPieces(pdf) + PagesPieces(pdf.pages[..i])
    ensures PageHeaderReads(PageHeader(i + 1), i + 1)
  {
    PagesPiecesAt(pdf.pages, i);
    ShiftedIndex(HeaderPieces(pdf), PagesPieces(pdf.pages), |PagesPieces(pdf.pages[..i])|);
    PageHeaderNumber(i + 1);
  }

  lemma ShiftedIndex(h: seq<string>, s: seq<string>, k: nat)
    requires k < |s|
    ensures (h + s)[|h| + k] == s[k] && (h + s)[..|h| + k] == h + s[..k]
  {
  }

  /** A page header: `"\n## Page "`, decimal digits denoting `n`, a blank line. */
  predicate PageHeaderReads(header: string, n: nat) {
    && |header| >= 12 && header[..9] == "\n## Page " && header[|header| - 2..] == "\n\n"
    && var digits := header[9..|header| - 2];
       && (forall k :: 0 <= k < |digits| ==> IsDigit(digits[k]))
       && DecimalValue(digits) == n
  }

  lemma PageHeaderNumber(n: nat)
    ensures PageHeaderReads(PageHeader(n), n)
  {
    var h := PageHeader(n);
    assert h[9..|h| - 2] == DecimalString(n);
    DecimalRoundTrip(n);
  }

  /** The content starts with the fixed document header: title from the
      stem, source name, page count and separator, in that order. */
  lemma MarkdownStartsWithHeader(pdf: Pdf)
    ensures Markdown(pdf) ==
      "# " + pdf.stem + "\n"
      + "*Converted from: " + pdf.name + "*\n"
      + "*Total pages: " + DecimalString(|pdf.pages|) + "*\n\n"
      + "---\n\n"
      + Concat(PagesPieces(pdf.pages))
  {
    var h := HeaderPieces(pdf);
    var rest := PagesPieces(pdf.pages);
    var a, b, c, d := h[0], h[1], h[2], h[3];
    assert h == [a, b, c, d];
    ConcatAppend(h, rest);
    ConcatFour(a, b, c, d);
    calc {
      Markdown(pdf);
      Concat(h + rest);
      Concat(h) + Concat(rest);
      a + b + c + d + Concat(rest);
    }
  }

  // ---------------------------------------------------------------------
  // The loops of `pdf_to_markdown`
  // ---------------------------------------------------------------------

  /** The span loop of one line (lines 65-73): every span rendered, in order. */
  method CollectLine(spans: seq<Span>) returns (lineText: seq<string>)
    ensures lineText == SpanPieces(spans)
  {
    lineText := [];
    var j := 0;
    while j < |spans|
      invariant 0 <= j <= |spans|
      invariant lineText == SpanPieces(spans[..j])
    {
      lineText := lineText + [RenderSpan(spans[j])];
      assert spans[..j + 1][..j] == spans[..j];
      j := j + 1;
    }
    assert spans[..j] == spans;
  }

  /** The line loop of a text block (lines 63-75): one joined line per line
      that has spans. */
  method CollectParagraph(lines: seq<Line>) returns (paragraph: seq<string>)
    ensures paragraph == Paragraph(lines)
  {
    paragraph := [];
    var i := 0;
    while i < |lines|
      invariant 0 <= i <= |lines|
      invariant paragraph == Paragraph(lines[..i])
    {
      var lineText := CollectLine(lines[i].spans);
      if lineText != [] {
        paragraph := paragraph + [Concat(lineText)];
      }
      assert lines[..i + 1][..i] == lines[..i];
      i := i + 1;
    }
    assert lines[..i] == lines;
  }

  /** One iteration of the block loop (lines 62-83): the pieces a block
      adds, appended to those collected so far. */
  method EmitBlock(pieces: seq<string>, block: Block, pageNumber: nat) returns (pieces': seq<string>)
    ensures pieces' == pieces + BlockPieces(block, pageNumber)
  {
    var added: seq<string> := [];
    match block.lines {
      case Some(lines) =>
        var paragraph := CollectParagraph(lines);
        if paragraph != [] {
          var text := Strip(Join(" ", paragraph));
          if text != [] {
            added := [text + "\n\n"];
          }
        }
      case None =>
        if block.image {
          added := [ImagePlaceholder(pageNumber)];
        }
    }
    assert added == BlockPieces(block, pageNumber);
    pieces' := pieces + added;
  }

  /** The block loop of one page (lines 62-83): every block in order. */
  method EmitBlocks(blocks: seq<Block>, pageNumber: nat) returns (acc: seq<string>)
    ensures acc == BlocksPieces(blocks, pageNumber)
  {
    acc := [];
    var b := 0;
    while b < |blocks|
      invariant 0 <= b <= |blocks|
      invariant acc == BlocksPieces(blocks[..b], pageNumber)
    {
      acc := EmitBlock(acc, blocks[b], pageNumber);
      assert blocks[..b + 1][..b] == blocks[..b];
      b := b + 1;
    }
    assert blocks[..b] == blocks;
  }

  /** One iteration of the page loop (lines 53-83): the 1-based page header,
      then the page's blocks. */
  method EmitPage(pieces: seq<string>, page: Page, index: nat) returns (pieces': seq<string>)
    ensures pieces' == pieces + PagePieces(page, index)
  {
    var blocks := EmitBlocks(page.blocks, index + 1);
    pieces' := pieces + ([PageHeader(index + 1)] + blocks);
  }

  /** `pdf_to_markdown` without its I/O (lines 43-89): the header pieces, the
      pages in index order, then one join. */
  method ConvertToMarkdown(pdf: Pdf) returns (content: string)
    ensures content == Markdown(pdf)
  {
    var pages: seq<string> := [];
    var pageIndex := 0;
    while pageIndex < |pdf.pages|
      invariant 0 <= pageIndex <= |pdf.pages|
      invariant pages == PagesPieces(pdf.pages[..pageIndex])
    {
      pages := EmitPage(pages, pdf.pages[pageIndex], pageIndex);
      assert pdf.pages[..pageIndex + 1][..pageIndex] == pdf.pages[..pageIndex];
      pageIndex := pageIndex + 1;
    }
    assert pdf.pages[..pageIndex] == pdf.pages;
    content := Concat(HeaderPieces(pdf) + pages);
  }
}
