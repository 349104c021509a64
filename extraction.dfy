/** Block extraction and linearisation: `get_text`, `page_to_text` (with
    `save_image` reduced to recording which file it writes) and the page loop
    of `pdf_to_text` that assembles the raw text with image placeholders. */
module Extraction {
  import opened Wrappers
  import opened PyStr
  import opened Seqs

  /** A text span of a line; only its text matters to the converter. */
  datatype Span = Span(text: string)

  /** A line of a text block: either it carries spans, or only a text. */
  datatype Line = SpanLine(spans: seq<Span>) | PlainLine(text: string)

  /** A block of a page as the PDF library reports it: its type tag (0 text,
      1 image, anything else unknown), its lines (text blocks), its number and
      its image extension (image blocks). The image bytes are not modelled. */
  datatype Block = Block(kind: int, lines: seq<Line>, number: nat, ext: string)

  /** A call of `save_image`: the image is written as `name + "." + ext`. */
  datatype SaveRequest = SaveRequest(name: string, ext: string)

  /** The marker that opens every image placeholder. */
  const ImageToken: string := "[image: "

  // ---------------------------------------------------------------------------
  // get_text
  // ---------------------------------------------------------------------------

  /** Each span's text followed by one space, in order. */
  function SpansText(spans: seq<Span>): string
  {
    if spans == [] then ""
    else SpansText(spans[..|spans| - 1]) + spans[|spans| - 1].text + " "
  }

  /** What one line adds to the accumulated text. */
  function LineText(l: Line): string
  {
    match l
    case SpanLine(spans) => SpansText(spans)
    case PlainLine(text) => text
  }

  /** The text `get_text` accumulates before stripping: the lines' texts, in
      order, with nothing between them. */
  function RawText(lines: seq<Line>): string
  {
    if lines == [] then ""
    else RawText(lines[..|lines| - 1]) + LineText(lines[|lines| - 1])
  }

  /** The result of `get_text`. */
  function BlockText(lines: seq<Line>): string
  {
    Strip(RawText(lines))
  }

  /** Lines contribute independently: the raw text of two runs of lines is the
      raw text of the first followed by that of the second. */
  lemma {:induction false} RawTextAppend(a: seq<Line>, b: seq<Line>)
    ensures RawText(a + b) == RawText(a) + RawText(b)
    decreases |b|
  {
    if b == [] {
      assert a + b == a;
    } else {
      assert (a + b)[..|a + b| - 1] == a + b[..|b| - 1];
      RawTextAppend(a, b[..|b| - 1]);
    }
  }

  /** `get_text(lines)`: the line loop with its inner span loop, then `strip()`. */
  method GetText(lines: seq<Line>) returns (text: string)
    ensures text == BlockText(lines)
    ensures NoOuterSpace(text)
  {
    text := "";
    var i := 0;
    while i < |lines|
      invariant 0 <= i <= |lines|
      invariant text == RawText(lines[..i])
    {
      var l := lines[i];
      if l.SpanLine? {
        ghost var before := text;
        var j := 0;
        while j < |l.spans|
          invariant 0 <= j <= |l.spans|
          invariant text == before + SpansText(l.spans[..j])
        {
          assert l.spans[..j + 1][..j] == l.spans[..j];
          text := text + l.spans[j].text + " ";
          j := j + 1;
        }
        assert l.spans[..j] == l.spans;
      } else {
        text := text + l.text;
      }
      assert lines[..i + 1][..i] == lines[..i];
      i := i + 1;
    }
    assert lines[..i] == lines;
    StripNoOuterSpace(text);
    text := Strip(text);
  }

  // ---------------------------------------------------------------------------
  // page_to_text
  // ---------------------------------------------------------------------------

  /** The name `save_image` is given for an image block: `p<page>-b<number>`. */
  function ImageName(page: nat, number: nat): string
  {
    "p" + NatStr(page) + "-b" + NatStr(number)
  }

  /** The save request `page_to_text` issues for an image block. */
  function RequestFor(b: Block, page: nat): SaveRequest
  {
    SaveRequest(ImageName(page, b.number), b.ext)
  }

  /** The file name under which a save request stores its image. */
  function FileName(r: SaveRequest): string
  {
    r.name + "." + r.ext
  }

  /** The text emitted for an image block. */
  function Placeholder(b: Block, page: nat): string
  {
    ImageToken + ImageName(page, b.number) + "." + b.ext + "]\n"
  }

  /** What one block adds to the page text. */
  function Contribution(b: Block, page: nat): string
  {
    if b.kind == 0 then BlockText(b.lines) + "\n"
    else if b.kind == 1 then Placeholder(b, page)
    else ""
  }

  /** The page text: the blocks' contributions, in block order. */
  function PageText(blocks: seq<Block>, page: nat): string
  {
    FlatMap(blocks, b => Contribution(b, page))
  }

  /** The save request an image block issues; other blocks issue none. */
  function BlockRequests(b: Block, page: nat): seq<SaveRequest>
  {
    if b.kind == 1 then [RequestFor(b, page)] else []
  }

  /** The images a page materialises: one per image block, in block order. */
  function PageRequests(blocks: seq<Block>, page: nat): seq<SaveRequest>
  {
    FlatMap(blocks, b => BlockRequests(b, page))
  }

  /** The number of image blocks. */
  function ImageCount(blocks: seq<Block>): nat
  {
    if blocks == [] then 0
    else (if blocks[0].kind == 1 then 1 else 0) + ImageCount(blocks[1..])
  }

  /** The file name inside a placeholder line `[image: <file>]\n`, if the line
      has that shape. */
  function PlaceholderFile(line: string): Option<string>
  {
    if |line| >= |ImageToken| + 2 && line[..|ImageToken|] == ImageToken && line[|line| - 2..] == "]\n"
    then Some(line[|ImageToken|..|line| - 2])
    else None
  }

  /** `page_to_text` over two runs of blocks is the text of the first run
      followed by that of the second, and likewise for the images saved; no
      block is moved or dropped. */
  lemma PageAppend(a: seq<Block>, b: seq<Block>, page: nat)
    ensures PageText(a + b, page) == PageText(a, page) + PageText(b, page)
    ensures PageRequests(a + b, page) == PageRequests(a, page) + PageRequests(b, page)
  {
    FlatMapAppend(a, b, b => Contribution(b, page));
    FlatMapAppend(a, b, b => BlockRequests(b, page));
  }

  /** Exactly one save request per image block. */
  lemma {:induction false} PageRequestsCount(blocks: seq<Block>, page: nat)
    ensures |PageRequests(blocks, page)| == ImageCount(blocks)
    decreases |blocks|
  {
    if blocks != [] {
      PageAppend([blocks[0]], blocks[1..], page);
      assert [blocks[0]] + blocks[1..] == blocks;
      FlatMapSingle(blocks[0], b => BlockRequests(b, page));
      PageRequestsCount(blocks[1..], page);
    }
  }

  /** The placeholder of an image block names exactly the file its save
      request stores: reading back the text between `[image: ` and `]` gives
      the file name. */
  lemma PlaceholderNamesSavedFile(b: Block, page: nat)
    requires b.kind == 1
    ensures PlaceholderFile(Contribution(b, page)) == Some(FileName(RequestFor(b, page)))
  {
    var f := FileName(RequestFor(b, page));
    var line := Contribution(b, page);
    assert line == ImageToken + f + "]\n";
    assert line[..|ImageToken|] == ImageToken;
    assert line[|line| - 2..] == "]\n";
    assert line[|ImageToken|..|line| - 2] == f;
  }

  /** `xs + [sep] + ys` with `sep` not in `xs` determines `xs` and `ys`. */
  lemma SplitAtFirst(xs: string, ys: string, us: string, vs: string, sep: char)
    requires sep !in xs && sep !in us
    requires xs + [sep] + ys == us + [sep] + vs
    ensures xs == us && ys == vs
  {
    var l := xs + [sep] + ys;
    var r := us + [sep] + vs;
    IndexOfAfter(xs, ys, sep);
    IndexOfAfter(us, vs, sep);
    assert xs == l[..|xs|] && us == r[..|us|];
    assert ys == l[|xs| + 1..] && vs == r[|us| + 1..];
  }

  /** Different image blocks get different file names: page, block number and
      extension can all be read back from the file name. */
  lemma FileNameInjective(page1: nat, n1: nat, ext1: string, page2: nat, n2: nat, ext2: string)
    requires FileName(SaveRequest(ImageName(page1, n1), ext1)) == FileName(SaveRequest(ImageName(page2, n2), ext2))
    ensures page1 == page2 && n1 == n2 && ext1 == ext2
  {
    var p1, p2 := NatStr(page1), NatStr(page2);
    var t1, t2 := NatStr(n1) + ['.'] + ext1, NatStr(n2) + ['.'] + ext2;
    FileNameShape(page1, n1, ext1);
    FileNameShape(page2, n2, ext2);
    DigitsLack(p1, '-');
    DigitsLack(p2, '-');
    SplitAtFirst(p1, "b" + t1, p2, "b" + t2, '-');
    NatStrInjective(page1, page2);
    assert ("b" + t1)[1..] == t1 && ("b" + t2)[1..] == t2;
    DigitsLack(NatStr(n1), '.');
    DigitsLack(NatStr(n2), '.');
    SplitAtFirst(NatStr(n1), ext1, NatStr(n2), ext2, '.');
    NatStrInjective(n1, n2);
  }

  /** The file name with the leading `p` removed, grouped at the first `-`. */
  lemma FileNameShape(page: nat, n: nat, ext: string)
    ensures FileName(SaveRequest(ImageName(page, n), ext))[1..]
         == NatStr(page) + ['-'] + ("b" + (NatStr(n) + ['.'] + ext))
  {
    var s := FileName(SaveRequest(ImageName(page, n), ext));
    assert s == "p" + (NatStr(page) + ['-'] + ("b" + (NatStr(n) + ['.'] + ext)));
  }

  // ---------------------------------------------------------------------------
  // The page loop of pdf_to_text
  // ---------------------------------------------------------------------------

  /** The raw document text: for pages numbered 1..n, each page's text
      followed by a blank line. */
  function DocText(pages: seq<seq<Block>>): string
  {
    if pages == [] then ""
    else DocText(pages[..|pages| - 1]) + PageText(pages[|pages| - 1], |pages|) + "\n\n"
  }

  /** The images the document materialises, page by page. */
  function DocRequests(pages: seq<seq<Block>>): seq<SaveRequest>
  {
    if pages == [] then []
    else DocRequests(pages[..|pages| - 1]) + PageRequests(pages[|pages| - 1], |pages|)
  }

  /** The number of image blocks in the whole document. */
  function DocImageCount(pages: seq<seq<Block>>): nat
  {
    if pages == [] then 0 else ImageCount(pages[0]) + DocImageCount(pages[1..])
  }

  /** One save request per image block of the document. */
  lemma {:induction false} DocRequestsCount(pages: seq<seq<Block>>)
    ensures |DocRequests(pages)| == DocImageCount(pages)
    decreases |pages|
  {
    if pages != [] {
      var n := |pages|;
      DocRequestsCount(pages[..n - 1]);
      PageRequestsCount(pages[n - 1], n);
      DocImageCountSnoc(pages[..n - 1], pages[n - 1]);
      assert pages[..n - 1] + [pages[n - 1]] == pages;
    }
  }

  lemma {:induction false} DocImageCountSnoc(pages: seq<seq<Block>>, last: seq<Block>)
    ensures DocImageCount(pages + [last]) == DocImageCount(pages) + ImageCount(last)
    decreases |pages|
  {
    if pages == [] {
      assert [last][1..] == [];
    } else {
      assert (pages + [last])[1..] == pages[1..] + [last];
      DocImageCountSnoc(pages[1..], last);
    }
  }

  // ---------------------------------------------------------------------------
  // Placeholder count
  // ---------------------------------------------------------------------------

  /** The condition under which no stray placeholder marker enters the text:
      a text block's extracted text does not contain `[image: `, and an image
      extension has no `[`. */
  predicate BlockClean(b: Block)
  {
    (b.kind == 0 ==> CountOcc(BlockText(b.lines), ImageToken) == 0)
    && (b.kind == 1 ==> '[' !in b.ext)
  }

  predicate PageClean(blocks: seq<Block>)
  {
    forall k :: 0 <= k < |blocks| ==> BlockClean(blocks[k])
  }

  predicate DocClean(pages: seq<seq<Block>>)
  {
    forall i :: 0 <= i < |pages| ==> PageClean(pages[i])
  }

  /** Every non-empty contribution ends its line. */
  lemma {:induction false} PageTextEndsLine(blocks: seq<Block>, page: nat)
    ensures var t := PageText(blocks, page); t == [] || t[|t| - 1] == '\n'
    decreases |blocks|
  {
    if blocks != [] {
      PageTextEndsLine(blocks[..|blocks| - 1], page);
    }
  }

  /** A marker followed by text without `[` holds exactly one marker. */
  lemma OneMarker(rest: string)
    requires '[' !in rest
    ensures CountOcc(ImageToken + rest, ImageToken) == 1
  {
    var s := ImageToken + rest;
    assert s[..|ImageToken|] == ImageToken;
    assert s[1..] == "image: " + rest;
    CountOccWithoutFirstChar(s[1..], ImageToken);
  }

  /** An image block's placeholder holds exactly one marker. */
  lemma PlaceholderMarkers(b: Block, page: nat)
    requires '[' !in b.ext
    ensures CountOcc(Placeholder(b, page), ImageToken) == 1
  {
    var p, m := NatStr(page), NatStr(b.number);
    DigitsLack(p, '[');
    DigitsLack(m, '[');
    var rest := ImageName(page, b.number) + "." + b.ext + "]\n";
    assert '[' !in rest;
    assert Placeholder(b, page) == ImageToken + rest;
    OneMarker(rest);
  }

  /** A clean block adds one marker if it is an image block and none otherwise. */
  lemma ContributionCount(b: Block, page: nat)
    requires BlockClean(b)
    ensures CountOcc(Contribution(b, page), ImageToken) == if b.kind == 1 then 1 else 0
  {
    if b.kind == 0 {
      CountOccAppend(BlockText(b.lines), "\n", ImageToken);
      ShortCount("\n", ImageToken);
    } else if b.kind == 1 {
      PlaceholderMarkers(b, page);
    }
  }

  /** On a clean page the number of `[image: ` markers equals the number of
      images the page saves. */
  lemma {:induction false} PagePlaceholderCount(blocks: seq<Block>, page: nat)
    requires PageClean(blocks)
    ensures CountOcc(PageText(blocks, page), ImageToken) == |PageRequests(blocks, page)|
    decreases |blocks|
  {
    if blocks != [] {
      var init, last := blocks[..|blocks| - 1], blocks[|blocks| - 1];
      assert PageClean(init) by {
        forall k | 0 <= k < |init| ensures BlockClean(init[k]) { assert init[k] == blocks[k]; }
      }
      PagePlaceholderCount(init, page);
      PageTextEndsLine(init, page);
      CountOccAppend(PageText(init, page), Contribution(last, page), ImageToken);
      ContributionCount(last, page);
    }
  }

  /** The raw document text ends each page with a newline. */
  lemma {:induction false} DocTextEndsLine(pages: seq<seq<Block>>)
    ensures var t := DocText(pages); t == [] || t[|t| - 1] == '\n'
  {
  }

  /** On a clean document the number of `[image: ` markers in the raw text
      equals the number of image blocks, and equally the number of images
      materialised. */
  lemma {:induction false} DocPlaceholderCount(pages: seq<seq<Block>>)
    requires DocClean(pages)
    ensures CountOcc(DocText(pages), ImageToken) == |DocRequests(pages)| == DocImageCount(pages)
    decreases |pages|
  {
    DocRequestsCount(pages);
    if pages != [] {
      var n := |pages|;
      var init := pages[..n - 1];
      assert DocClean(init) by {
        forall i | 0 <= i < |init| ensures PageClean(init[i]) { assert init[i] == pages[i]; }
      }
      DocPlaceholderCount(init);
      assert PageClean(pages[n - 1]);
      PagePlaceholderCount(pages[n - 1], n);
      DocTextEndsLine(init);
      PageCountStep(DocText(init), PageText(pages[n - 1], n));
    }
  }

  /** Appending a page and a blank line to text that ends a line adds exactly
      the page's markers. */
  lemma PageCountStep(a: string, p: string)
    requires a == [] || a[|a| - 1] == '\n'
    ensures CountOcc(a + p + "\n\n", ImageToken) == CountOcc(a, ImageToken) + CountOcc(p, ImageToken)
  {
    CountOccAppend(a, p, ImageToken);
    CountOccAppend(a + p, "\n\n", ImageToken);
    ShortCount("\n\n", ImageToken);
  }

  /** Processing one more block extends the page text by that block's
      contribution and the saved images by that block's request. */
  lemma PageStep(blocks: seq<Block>, n: nat, page: nat)
    requires n < |blocks|
    ensures PageText(blocks[..n + 1], page) == PageText(blocks[..n], page) + Contribution(blocks[n], page)
    ensures PageRequests(blocks[..n + 1], page) == PageRequests(blocks[..n], page) + BlockRequests(blocks[n], page)
  {
    FlatMapPrefix(blocks, n, b => Contribution(b, page));
    FlatMapPrefix(blocks, n, b => BlockRequests(b, page));
  }

  /** The f-string `page_to_text` writes spells the block's placeholder. */
  lemma PlaceholderSpelling(b: Block, page: nat, name: string)
    requires name == "p" + NatStr(page) + "-b" + NatStr(b.number)
    ensures "[image: " + name + "." + b.ext + "]\n" == Placeholder(b, page)
  {
  }

  /** Processing one more page extends the raw text by that page's text and a
      blank line, and the saved images by that page's requests. */
  lemma DocStep(pages: seq<seq<Block>>, i: nat)
    requires i < |pages|
    ensures DocText(pages[..i + 1]) == DocText(pages[..i]) + PageText(pages[i], i + 1) + "\n\n"
    ensures DocRequests(pages[..i + 1]) == DocRequests(pages[..i]) + PageRequests(pages[i], i + 1)
  {
    assert pages[..i + 1][..i] == pages[..i];
  }

  /** An image name is made of `p`, `-b` and digits, so it holds no slash. */
  lemma ImageNameNoSlash(page: nat, number: nat)
    ensures '/' !in ImageName(page, number)
  {
    DigitsLack(NatStr(page), '/');
    DigitsLack(NatStr(number), '/');
  }

  /** Every image a page writes is named by `ImageName`, hence without a
      slash. */
  lemma {:induction false} PageRequestNames(blocks: seq<Block>, page: nat)
    ensures forall r :: r in PageRequests(blocks, page) ==> '/' !in r.name
    decreases |blocks|
  {
    if blocks != [] {
      var n := |blocks|;
      PageStep(blocks, n - 1, page);
      assert blocks[..n] == blocks;
      PageRequestNames(blocks[..n - 1], page);
      ImageNameNoSlash(page, blocks[n - 1].number);
    }
  }

  /** Every image the document writes has a name without a slash. */
  lemma {:induction false} DocRequestNames(pages: seq<seq<Block>>)
    ensures forall r :: r in DocRequests(pages) ==> '/' !in r.name
    decreases |pages|
  {
    if pages != [] {
      DocRequestNames(pages[..|pages| - 1]);
      PageRequestNames(pages[|pages| - 1], |pages|);
    }
  }

  // ---------------------------------------------------------------------------
  // The extractor's state: the images materialised so far
  // ---------------------------------------------------------------------------

  /** The part of the converter that walks the document and writes image files;
      `saved` lists every file written, in order. */
  class Extractor {
    var saved: seq<SaveRequest>

    constructor ()
      ensures saved == []
    {
      saved := [];
    }

    /** `save_image(block, path, name)`: records that `name.ext` is written. */
    method SaveImage(b: Block, name: string)
      modifies this
      ensures saved == old(saved) + [SaveRequest(name, b.ext)]
    {
      saved := saved + [SaveRequest(name, b.ext)];
    }

    /** `page_to_text(blocks, page)`. */
    method PageToText(blocks: seq<Block>, page: nat) returns (text: string)
      modifies this
      ensures text == PageText(blocks, page)
      ensures saved == old(saved) + PageRequests(blocks, page)
    {
      text := "";
      var n := 0;
      while n < |blocks|
        invariant 0 <= n <= |blocks|
        invariant text == PageText(blocks[..n], page)
        invariant saved == old(saved) + PageRequests(blocks[..n], page)
      {
        PageStep(blocks, n, page);
        var b := blocks[n];
        if b.kind == 0 {
          var t := GetText(b.lines);
          AppendAssoc(text, t, "\n");
          text := text + t;
          text := text + "\n";
        } else if b.kind == 1 {
          // save_image(...) then the placeholder line
          var name := "p" + NatStr(page) + "-b" + NatStr(b.number);
          SaveImage(b, name);
          AppendAssoc(old(saved), PageRequests(blocks[..n], page), BlockRequests(b, page));
          text := text + ("[image: " + name + "." + b.ext + "]\n");
          PlaceholderSpelling(b, page, name);
        }
        n := n + 1;
      }
      assert blocks[..n] == blocks;
    }

    /** The page loop of `pdf_to_text`: pages are numbered from 1 and each
        page's text is followed by a blank line. */
    method DocumentText(pages: seq<seq<Block>>) returns (raw: string)
      modifies this
      ensures raw == DocText(pages)
      ensures saved == old(saved) + DocRequests(pages)
    {
      raw := "";
      var i := 0;
      while i < |pages|
        invariant 0 <= i <= |pages|
        invariant raw == DocText(pages[..i])
        invariant saved == old(saved) + DocRequests(pages[..i])
      {
        DocStep(pages, i);
        var t := PageToText(pages[i], i + 1);
        AppendAssoc(old(saved), DocRequests(pages[..i]), PageRequests(pages[i], i + 1));
        raw := raw + t;
        raw := raw + "\n\n";
        i := i + 1;
      }
      assert pages[..i] == pages;
    }
  }
}
