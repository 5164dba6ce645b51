/** The document compiler, `create_word_doc` (getmeduall.py:57-83). The
    Word document is modelled as the sequence of elements added to it, in
    order; saving it is not modelled, only the file name it is saved under.
    Image downloads go through an oracle. */
module Document {
  import opened Wrappers
  import opened Text
  import opened Page
  import opened Topics

  type Bytes = seq<bv8>

  /** What one image request gives: `None` when the request raised, else
      the status, the body, and whether python-docx can read that body as a
      picture (`readable`; an HTML error page or an empty body cannot be). */
  datatype ImageResponse = ImageResponse(status: int, content: Bytes, readable: bool)

  /** One element added to the document. `Picture` is the paragraph that
      `add_picture` adds around a picture; `EmptyParagraph` is that
      paragraph left without a picture when the body could not be read as
      one (the bare `except` swallows the error after the paragraph exists).
      The model keeps it apart from `Paragraph("")`, which a page with an
      empty field gives. */
  datatype Element =
    | Heading(level: nat, text: string)
    | Paragraph(text: string)
    | Picture(data: Bytes)
    | EmptyParagraph
    | PageBreak

  const UnitLabel: string := "分野: "
  const ChoicesLabel: string := "選択肢："
  const ExplanationLabel: string := "解説: "

  /** `f'{year}年 医師国家試験問題（{caption}）'` */
  function Title(year: string, caption: string): string {
    year + "年 医師国家試験問題（" + caption + "）"
  }

  /** `f"取得問題数: {len(pages)}問"` */
  function CountLine(n: nat): string {
    "取得問題数: " + NatToString(n) + "問"
  }

  /** `f"問題{ i } {p['question_id']}"` */
  function QuestionHeading(i: nat, qid: string): string {
    "問題" + NatToString(i) + " " + qid
  }

  /** `f"{year}_{caption}_medu4.docx"` */
  function FileName(year: string, caption: string): string {
    year + "_" + caption + "_medu4.docx"
  }

  // ---------------------------------------------------------------------
  // The document, stated as a fold over the pages

  /** Whether the request for the image at `url` answered with status 200,
      so that `add_picture` is called. */
  predicate Answered(fetchImage: string -> Option<ImageResponse>, url: string) {
    fetchImage(url).Some? && fetchImage(url).value.status == 200
  }

  /** Whether the image at `url` ends up in the document as a picture. */
  predicate Embedded(fetchImage: string -> Option<ImageResponse>, url: string) {
    Answered(fetchImage, url) && fetchImage(url).value.readable
  }

  /** What one image url adds: its picture, the empty paragraph of a
      picture that could not be read, or nothing when the request raised
      or answered with another status than 200. */
  function ImageElements(fetchImage: string -> Option<ImageResponse>, url: string): seq<Element> {
    if !Answered(fetchImage, url) then []
    else if fetchImage(url).value.readable then [Picture(fetchImage(url).value.content)]
    else [EmptyParagraph]
  }

  /** What the image loop adds for a list of image urls, url by url in
      list order. */
  function Pictures(urls: seq<string>, fetchImage: string -> Option<ImageResponse>): seq<Element> {
    if urls == [] then []
    else Pictures(urls[..|urls| - 1], fetchImage) + ImageElements(fetchImage, urls[|urls| - 1])
  }

  /** One paragraph per choice, in order. */
  function ChoiceParagraphs(choices: seq<string>): seq<Element> {
    if choices == [] then []
    else ChoiceParagraphs(choices[..|choices| - 1]) + [Paragraph(choices[|choices| - 1])]
  }

  /** The heading, unit line and problem text that open the block of page
      `p`, numbered `i`. */
  function Opening(p: Record, i: nat, topicMap: map<string, string>): seq<Element> {
    [Heading(2, QuestionHeading(i, p.questionId)),
     Paragraph(UnitLabel + UnitOf(topicMap, p.questionId)),
     Paragraph(p.problem)]
  }

  /** What the image loop adds for page `p`: it runs only when images are
      wanted and the page lists some. */
  function Shown(p: Record, includeImages: bool, fetchImage: string -> Option<ImageResponse>): seq<Element> {
    if includeImages && p.images != [] then Pictures(p.images, fetchImage) else []
  }

  /** The answer, the explanation and the page break that close a block. */
  function Closing(p: Record): seq<Element> {
    [Paragraph(p.answer), Paragraph(ExplanationLabel + p.explanation), PageBreak]
  }

  /** The elements added for page `p`, numbered `i`. */
  function Block(p: Record, i: nat, topicMap: map<string, string>, includeImages: bool,
                 fetchImage: string -> Option<ImageResponse>): seq<Element>
  {
    Opening(p, i, topicMap) + Shown(p, includeImages, fetchImage)
      + [Paragraph(ChoicesLabel)] + ChoiceParagraphs(p.choices) + Closing(p)
  }

  /** The blocks of all pages, numbered from 1 in input order. */
  function Blocks(pages: seq<Record>, topicMap: map<string, string>, includeImages: bool,
                  fetchImage: string -> Option<ImageResponse>): seq<Element>
  {
    if pages == [] then []
    else
      Blocks(pages[..|pages| - 1], topicMap, includeImages, fetchImage)
        + Block(pages[|pages| - 1], |pages|, topicMap, includeImages, fetchImage)
  }

  /** The whole document: the title, the count line, then the blocks. */
  function Compile(pages: seq<Record>, year: string, caption: string, topicMap: map<string, string>,
                   includeImages: bool, fetchImage: string -> Option<ImageResponse>): seq<Element>
  {
    [Heading(0, Title(year, caption)), Paragraph(CountLine(|pages|))]
      + Blocks(pages, topicMap, includeImages, fetchImage)
  }

  // ---------------------------------------------------------------------
  // The compiler

  /** `create_word_doc(pages, year, caption, topic_map, include_images)`:
      the document it builds and the name it saves it under. */
  method CreateWordDoc(pages: seq<Record>, year: string, caption: string, topicMap: map<string, string>,
                       includeImages: bool, fetchImage: string -> Option<ImageResponse>)
    returns (doc: seq<Element>, fn: string)
    ensures doc == Compile(pages, year, caption, topicMap, includeImages, fetchImage)
    ensures fn == FileName(year, caption)
  {
    doc := [Heading(0, Title(year, caption))];
    doc := doc + [Paragraph(CountLine(|pages|))];
    ghost var header := doc;
    assert header == [Heading(0, Title(year, caption)), Paragraph(CountLine(|pages|))];
    for n := 0 to |pages|
      invariant doc == header + Blocks(pages[..n], topicMap, includeImages, fetchImage)
    {
      ghost var done := Blocks(pages[..n], topicMap, includeImages, fetchImage);
      ghost var block := Block(pages[n], n + 1, topicMap, includeImages, fetchImage);
      doc := AddBlock(doc, pages[n], n + 1, topicMap, includeImages, fetchImage);
      AppendAssoc(header, done, block);
      BlocksStep(pages, n, topicMap, includeImages, fetchImage);
    }
    assert pages[..|pages|] == pages;
    fn := FileName(year, caption);
  }

  /** The body of the page loop of `create_word_doc`: the elements for
      page `p`, numbered `i`, appended to `doc`. */
  method AddBlock(doc0: seq<Element>, p: Record, i: nat, topicMap: map<string, string>,
                  includeImages: bool, fetchImage: string -> Option<ImageResponse>)
    returns (doc: seq<Element>)
    ensures doc == doc0 + Block(p, i, topicMap, includeImages, fetchImage)
  {
    doc := doc0 + [Heading(2, QuestionHeading(i, p.questionId))];
    var unit := UnitOf(topicMap, p.questionId);
    doc := doc + [Paragraph(UnitLabel + unit)];
    doc := doc + [Paragraph(p.problem)];
    ghost var opening := doc;
    ghost var pictures: seq<Element> := [];
    if includeImages && p.images != [] {
      doc := AddPictures(doc, p.images, fetchImage);
      pictures := Pictures(p.images, fetchImage);
    }
    doc := doc + [Paragraph(ChoicesLabel)];
    ghost var listed := doc;
    for k := 0 to |p.choices|
      invariant doc == listed + ChoiceParagraphs(p.choices[..k])
    {
      doc := doc + [Paragraph(p.choices[k])];
      assert p.choices[..k + 1][..k] == p.choices[..k];
    }
    assert p.choices[..|p.choices|] == p.choices;
    doc := doc + [Paragraph(p.answer)];
    doc := doc + [Paragraph(ExplanationLabel + p.explanation)];
    doc := doc + [PageBreak];
    BlockLayout(doc0, opening, pictures, listed, doc, p, i, topicMap, includeImages, fetchImage);
  }

  /** The image loop of `create_word_doc` (lines 67-74): what each url
      gives, appended to `doc` in url order. */
  method AddPictures(doc0: seq<Element>, urls: seq<string>, fetchImage: string -> Option<ImageResponse>)
    returns (doc: seq<Element>)
    ensures doc == doc0 + Pictures(urls, fetchImage)
  {
    doc := doc0;
    for j := 0 to |urls|
      invariant doc == doc0 + Pictures(urls[..j], fetchImage)
    {
      var r := fetchImage(urls[j]);
      if r.Some? && r.value.status == 200 {
        if r.value.readable {
          doc := doc + [Picture(r.value.content)];
        } else {
          doc := doc + [EmptyParagraph];
        }
      }
      PicturesStep(urls, j, fetchImage);
    }
    assert urls[..|urls|] == urls;
  }

  /** One more url adds what it gives after what the urls before it gave. */
  lemma PicturesStep(urls: seq<string>, j: nat, fetchImage: string -> Option<ImageResponse>)
    requires j < |urls|
    ensures Pictures(urls[..j + 1], fetchImage) == Pictures(urls[..j], fetchImage) + ImageElements(fetchImage, urls[j])
  {
    assert urls[..j + 1][..j] == urls[..j];
  }

  /** The steps of one iteration of the page loop add up to `Block`. */
  lemma BlockLayout(before: seq<Element>, opening: seq<Element>, pictures: seq<Element>,
                    listed: seq<Element>, doc: seq<Element>, p: Record, i: nat,
                    topicMap: map<string, string>, includeImages: bool,
                    fetchImage: string -> Option<ImageResponse>)
    requires opening == before + Opening(p, i, topicMap)
    requires pictures == Shown(p, includeImages, fetchImage)
    requires listed == opening + pictures + [Paragraph(ChoicesLabel)]
    requires doc == listed + ChoiceParagraphs(p.choices) + Closing(p)
    ensures doc == before + Block(p, i, topicMap, includeImages, fetchImage)
  {
  }

  /** `Blocks` of one more page adds that page's block, numbered after the
      pages before it. */
  lemma BlocksStep(pages: seq<Record>, n: nat, topicMap: map<string, string>, includeImages: bool,
                   fetchImage: string -> Option<ImageResponse>)
    requires n < |pages|
    ensures Blocks(pages[..n + 1], topicMap, includeImages, fetchImage)
            == Blocks(pages[..n], topicMap, includeImages, fetchImage)
               + Block(pages[n], n + 1, topicMap, includeImages, fetchImage)
  {
    assert pages[..n + 1][..n] == pages[..n];
  }

  // ---------------------------------------------------------------------
  // Reading the document back

  /** The elements of `doc` that `keep` accepts, in document order. */
  function Select(doc: seq<Element>, keep: Element -> bool): seq<Element> {
    if doc == [] then []
    else
      var last := doc[|doc| - 1];
      Select(doc[..|doc| - 1], keep) + (if keep(last) then [last] else [])
  }

  predicate IsBreak(e: Element) { e.PageBreak? }
  predicate IsQuestionHeading(e: Element) { e.Heading? && e.level == 2 }
  /** What the image loop adds: pictures and the empty paragraphs of
      pictures that could not be read. */
  predicate IsImageOutput(e: Element) { e.Picture? || e.EmptyParagraph? }
  predicate IsText(e: Element) { !IsImageOutput(e) }

  lemma {:induction false} SelectAppend(a: seq<Element>, b: seq<Element>, keep: Element -> bool)
    ensures Select(a + b, keep) == Select(a, keep) + Select(b, keep)
    decreases |b|
  {
    if b == [] {
      assert a + b == a;
    } else {
      var b', last := b[..|b| - 1], b[|b| - 1];
      assert (a + b)[..|a + b| - 1] == a + b';
      assert (a + b)[|a + b| - 1] == last;
      SelectAppend(a, b', keep);
      AppendAssoc(Select(a, keep), Select(b', keep), if keep(last) then [last] else []);
    }
  }

  /** `Select` keeps all of a sequence whose every element it accepts. */
  lemma {:induction false} SelectAll(s: seq<Element>, keep: Element -> bool)
    requires forall i :: 0 <= i < |s| ==> keep(s[i])
    ensures Select(s, keep) == s
    decreases |s|
  {
    if s != [] {
      var s' := s[..|s| - 1];
      assert forall i :: 0 <= i < |s'| ==> s'[i] == s[i];
      SelectAll(s', keep);
      assert s' + [s[|s| - 1]] == s;
    }
  }

  /** `Select` keeps nothing of a sequence whose every element it
      rejects. */
  lemma {:induction false} SelectNone(s: seq<Element>, keep: Element -> bool)
    requires forall i :: 0 <= i < |s| ==> !keep(s[i])
    ensures Select(s, keep) == []
    decreases |s|
  {
    if s != [] {
      var s' := s[..|s| - 1];
      assert forall i :: 0 <= i < |s'| ==> s'[i] == s[i];
      SelectNone(s', keep);
    }
  }

  lemma {:induction false} PicturesAreImageOutput(urls: seq<string>, fetchImage: string -> Option<ImageResponse>)
    ensures forall i :: 0 <= i < |Pictures(urls, fetchImage)| ==> IsImageOutput(Pictures(urls, fetchImage)[i])
    decreases |urls|
  {
    if urls != [] {
      PicturesAreImageOutput(urls[..|urls| - 1], fetchImage);
    }
  }

  lemma {:induction false} ChoicesAreParagraphs(choices: seq<string>)
    ensures forall i :: 0 <= i < |ChoiceParagraphs(choices)| ==> ChoiceParagraphs(choices)[i].Paragraph?
    decreases |choices|
  {
    if choices != [] {
      ChoicesAreParagraphs(choices[..|choices| - 1]);
    }
  }

  /** `Select` on a block, piece by piece. */
  lemma SelectBlock(p: Record, i: nat, topicMap: map<string, string>, includeImages: bool,
                    fetchImage: string -> Option<ImageResponse>, keep: Element -> bool)
    ensures Select(Block(p, i, topicMap, includeImages, fetchImage), keep)
            == Select(Opening(p, i, topicMap), keep) + Select(Shown(p, includeImages, fetchImage), keep)
               + Select([Paragraph(ChoicesLabel)], keep) + Select(ChoiceParagraphs(p.choices), keep)
               + Select(Closing(p), keep)
  {
    var o, s, l, c := Opening(p, i, topicMap), Shown(p, includeImages, fetchImage),
                      [Paragraph(ChoicesLabel)], ChoiceParagraphs(p.choices);
    SelectAppend(o, s, keep);
    SelectAppend(o + s, l, keep);
    SelectAppend(o + s + l, c, keep);
    SelectAppend(o + s + l + c, Closing(p), keep);
  }

  /** What each kind of selection keeps of a block's opening. */
  lemma OpeningKinds(p: Record, i: nat, topicMap: map<string, string>)
    ensures Select(Opening(p, i, topicMap), IsBreak) == []
    ensures Select(Opening(p, i, topicMap), IsQuestionHeading) == [Heading(2, QuestionHeading(i, p.questionId))]
    ensures Select(Opening(p, i, topicMap), IsImageOutput) == []
    ensures Select(Opening(p, i, topicMap), IsText) == Opening(p, i, topicMap)
  {
    var o := Opening(p, i, topicMap);
    var h := [Heading(2, QuestionHeading(i, p.questionId))];
    var rest := [Paragraph(UnitLabel + UnitOf(topicMap, p.questionId)), Paragraph(p.problem)];
    SelectNone(o, IsBreak);
    SelectNone(o, IsImageOutput);
    SelectAll(o, IsText);
    assert o == h + rest;
    SelectAppend(h, rest, IsQuestionHeading);
    SelectAll(h, IsQuestionHeading);
    SelectNone(rest, IsQuestionHeading);
  }

  /** What each kind of selection keeps of what a block's image loop added. */
  lemma ShownKinds(p: Record, includeImages: bool, fetchImage: string -> Option<ImageResponse>)
    ensures Select(Shown(p, includeImages, fetchImage), IsBreak) == []
    ensures Select(Shown(p, includeImages, fetchImage), IsQuestionHeading) == []
    ensures Select(Shown(p, includeImages, fetchImage), IsImageOutput) == Shown(p, includeImages, fetchImage)
    ensures Select(Shown(p, includeImages, fetchImage), IsText) == []
  {
    var s := Shown(p, includeImages, fetchImage);
    PicturesAreImageOutput(p.images, fetchImage);
    SelectNone(s, IsBreak);
    SelectNone(s, IsQuestionHeading);
    SelectAll(s, IsImageOutput);
    SelectNone(s, IsText);
  }

  /** What each kind of selection keeps of the line that introduces the choices. */
  lemma LabelKinds()
    ensures Select([Paragraph(ChoicesLabel)], IsBreak) == []
    ensures Select([Paragraph(ChoicesLabel)], IsQuestionHeading) == []
    ensures Select([Paragraph(ChoicesLabel)], IsImageOutput) == []
    ensures Select([Paragraph(ChoicesLabel)], IsText) == [Paragraph(ChoicesLabel)]
  {
    var l := [Paragraph(ChoicesLabel)];
    SelectNone(l, IsBreak);
    SelectNone(l, IsQuestionHeading);
    SelectNone(l, IsImageOutput);
    SelectAll(l, IsText);
  }

  /** What each kind of selection keeps of a block's choice paragraphs. */
  lemma ChoiceKinds(choices: seq<string>)
    ensures Select(ChoiceParagraphs(choices), IsBreak) == []
    ensures Select(ChoiceParagraphs(choices), IsQuestionHeading) == []
    ensures Select(ChoiceParagraphs(choices), IsImageOutput) == []
    ensures Select(ChoiceParagraphs(choices), IsText) == ChoiceParagraphs(choices)
  {
    var c := ChoiceParagraphs(choices);
    ChoicesAreParagraphs(choices);
    SelectNone(c, IsBreak);
    SelectNone(c, IsQuestionHeading);
    SelectNone(c, IsImageOutput);
    SelectAll(c, IsText);
  }

  /** What each kind of selection keeps of a block's closing. */
  lemma ClosingKinds(p: Record)
    ensures Select(Closing(p), IsBreak) == [PageBreak]
    ensures Select(Closing(p), IsQuestionHeading) == []
    ensures Select(Closing(p), IsImageOutput) == []
    ensures Select(Closing(p), IsText) == Closing(p)
  {
    var texts := [Paragraph(p.answer), Paragraph(ExplanationLabel + p.explanation)];
    assert Closing(p) == texts + [PageBreak];
    SelectAppend(texts, [PageBreak], IsBreak);
    SelectNone(texts, IsBreak);
    SelectAll([PageBreak], IsBreak);
    SelectNone(Closing(p), IsQuestionHeading);
    SelectNone(Closing(p), IsImageOutput);
    SelectAll(Closing(p), IsText);
  }

  // ---------------------------------------------------------------------
  // What one block holds

  /** Every block ends in exactly one page break. */
  lemma BlockBreaks(p: Record, i: nat, topicMap: map<string, string>, includeImages: bool,
                    fetchImage: string -> Option<ImageResponse>)
    ensures Select(Block(p, i, topicMap, includeImages, fetchImage), IsBreak) == [PageBreak]
  {
    SelectBlock(p, i, topicMap, includeImages, fetchImage, IsBreak);
    OpeningKinds(p, i, topicMap);
    ShownKinds(p, includeImages, fetchImage);
    LabelKinds();
    ChoiceKinds(p.choices);
    ClosingKinds(p);
  }

  /** Every block has exactly one level-2 heading: its number and id. */
  lemma BlockHeadings(p: Record, i: nat, topicMap: map<string, string>, includeImages: bool,
                      fetchImage: string -> Option<ImageResponse>)
    ensures Select(Block(p, i, topicMap, includeImages, fetchImage), IsQuestionHeading)
            == [Heading(2, QuestionHeading(i, p.questionId))]
  {
    SelectBlock(p, i, topicMap, includeImages, fetchImage, IsQuestionHeading);
    OpeningKinds(p, i, topicMap);
    ShownKinds(p, includeImages, fetchImage);
    LabelKinds();
    ChoiceKinds(p.choices);
    ClosingKinds(p);
  }

  /** What the image loop adds to a block is what its page's image urls
      give, and only when images are wanted and the page has some. */
  lemma BlockPictures(p: Record, i: nat, topicMap: map<string, string>, includeImages: bool,
                      fetchImage: string -> Option<ImageResponse>)
    ensures Select(Block(p, i, topicMap, includeImages, fetchImage), IsImageOutput)
            == if includeImages && p.images != [] then Pictures(p.images, fetchImage) else []
  {
    SelectBlock(p, i, topicMap, includeImages, fetchImage, IsImageOutput);
    OpeningKinds(p, i, topicMap);
    ShownKinds(p, includeImages, fetchImage);
    LabelKinds();
    ChoiceKinds(p.choices);
    ClosingKinds(p);
  }

  /** Leaving the pictures out of a block gives the block built without
      images: no failed image, and no image at all, disturbs the rest. */
  lemma BlockText(p: Record, i: nat, topicMap: map<string, string>, includeImages: bool,
                  fetchImage: string -> Option<ImageResponse>, other: string -> Option<ImageResponse>)
    ensures Select(Block(p, i, topicMap, includeImages, fetchImage), IsText)
            == Block(p, i, topicMap, false, other)
  {
    SelectBlock(p, i, topicMap, includeImages, fetchImage, IsText);
    OpeningKinds(p, i, topicMap);
    ShownKinds(p, includeImages, fetchImage);
    LabelKinds();
    ChoiceKinds(p.choices);
    ClosingKinds(p);
    assert Shown(p, false, other) == [];
  }

  /** An element is selected exactly when it is in the document and
      accepted. */
  lemma {:induction false} SelectMembers(s: seq<Element>, keep: Element -> bool, e: Element)
    ensures e in Select(s, keep) <==> e in s && keep(e)
    decreases |s|
  {
    if s != [] {
      var s' := s[..|s| - 1];
      SelectMembers(s', keep, e);
      assert s == s' + [s[|s| - 1]];
    }
  }

  // ---------------------------------------------------------------------
  // The image loop of one page

  /** The urls are handled one by one: what two lists add is what each
      adds, in order. */
  lemma {:induction false} PicturesAppend(a: seq<string>, b: seq<string>, fetchImage: string -> Option<ImageResponse>)
    ensures Pictures(a + b, fetchImage) == Pictures(a, fetchImage) + Pictures(b, fetchImage)
    decreases |b|
  {
    if b == [] {
      assert a + b == a;
    } else {
      var b', last := b[..|b| - 1], b[|b| - 1];
      assert (a + b)[..|a + b| - 1] == a + b';
      assert (a + b)[|a + b| - 1] == last;
      PicturesAppend(a, b', fetchImage);
      AppendAssoc(Pictures(a, fetchImage), Pictures(b', fetchImage), ImageElements(fetchImage, last));
    }
  }

  /** An image whose request raises or answers with another status than
      200 is skipped, and the images around it still appear. */
  lemma SkipFailedImage(a: seq<string>, url: string, b: seq<string>, fetchImage: string -> Option<ImageResponse>)
    requires !Answered(fetchImage, url)
    ensures Pictures(a + [url] + b, fetchImage) == Pictures(a + b, fetchImage)
  {
    PicturesAppend(a + [url], b, fetchImage);
    PicturesAppend(a, [url], fetchImage);
    PicturesAppend(a, b, fetchImage);
    assert [url][..0] == [];
    assert Pictures(a + [url], fetchImage) == Pictures(a, fetchImage);
  }

  /** An image that answers 200 with a body that is not a picture leaves
      one empty paragraph in its place, and the images around it still
      appear. */
  lemma UnreadableImage(a: seq<string>, url: string, b: seq<string>, fetchImage: string -> Option<ImageResponse>)
    requires Answered(fetchImage, url) && !fetchImage(url).value.readable
    ensures Pictures(a + [url] + b, fetchImage) == Pictures(a, fetchImage) + [EmptyParagraph] + Pictures(b, fetchImage)
  {
    PicturesAppend(a + [url], b, fetchImage);
    PicturesAppend(a, [url], fetchImage);
    assert [url][..0] == [];
  }

  /** When every image downloads with status 200 as a readable picture,
      each url gives its picture, in order. */
  lemma {:induction false} AllImagesFetched(urls: seq<string>, fetchImage: string -> Option<ImageResponse>)
    requires forall k :: 0 <= k < |urls| ==> Embedded(fetchImage, urls[k])
    ensures Pictures(urls, fetchImage)
            == seq(|urls|, k requires 0 <= k < |urls| && Embedded(fetchImage, urls[k])
                               => Picture(fetchImage(urls[k]).value.content))
    decreases |urls|
  {
    if urls != [] {
      var front := urls[..|urls| - 1];
      AllImagesFetched(front, fetchImage);
    }
  }

  /** A picture is in the list exactly when one of the urls was fetched
      with status 200 and gave those bytes as a readable picture. */
  lemma {:induction false} PicturesMembers(urls: seq<string>, fetchImage: string -> Option<ImageResponse>, d: Bytes)
    ensures Picture(d) in Pictures(urls, fetchImage) <==>
            exists u :: u in urls && Embedded(fetchImage, u) && fetchImage(u).value.content == d
    decreases |urls|
  {
    if urls != [] {
      var front, last := urls[..|urls| - 1], urls[|urls| - 1];
      PicturesMembers(front, fetchImage, d);
      assert urls == front + [last];
      if Picture(d) in Pictures(urls, fetchImage) && Picture(d) !in Pictures(front, fetchImage) {
        assert last in urls;
      }
      if exists u :: u in urls && Embedded(fetchImage, u) && fetchImage(u).value.content == d {
        var u :| u in urls && Embedded(fetchImage, u) && fetchImage(u).value.content == d;
        if u != last {
          assert u in front;
        }
      }
    }
  }

  // ---------------------------------------------------------------------
  // What the whole document holds

  /** The heading and count line that open the document. */
  lemma CompileHeader(pages: seq<Record>, year: string, caption: string, topicMap: map<string, string>,
                      includeImages: bool, fetchImage: string -> Option<ImageResponse>, keep: Element -> bool)
    ensures Select(Compile(pages, year, caption, topicMap, includeImages, fetchImage), keep)
            == Select([Heading(0, Title(year, caption)), Paragraph(CountLine(|pages|))], keep)
               + Select(Blocks(pages, topicMap, includeImages, fetchImage), keep)
  {
    SelectAppend([Heading(0, Title(year, caption)), Paragraph(CountLine(|pages|))],
                 Blocks(pages, topicMap, includeImages, fetchImage), keep);
  }

  lemma {:induction false} BlocksBreaks(pages: seq<Record>, topicMap: map<string, string>, includeImages: bool,
                                        fetchImage: string -> Option<ImageResponse>)
    ensures |Select(Blocks(pages, topicMap, includeImages, fetchImage), IsBreak)| == |pages|
    decreases |pages|
  {
    if pages != [] {
      var front, n := pages[..|pages| - 1], |pages|;
      BlocksBreaks(front, topicMap, includeImages, fetchImage);
      SelectAppend(Blocks(front, topicMap, includeImages, fetchImage),
                   Block(pages[n - 1], n, topicMap, includeImages, fetchImage), IsBreak);
      BlockBreaks(pages[n - 1], n, topicMap, includeImages, fetchImage);
    }
  }

  /** One page break per page: the document has as many page breaks as
      there are pages. */
  lemma PageBreakCount(pages: seq<Record>, year: string, caption: string, topicMap: map<string, string>,
                       includeImages: bool, fetchImage: string -> Option<ImageResponse>)
    ensures |Select(Compile(pages, year, caption, topicMap, includeImages, fetchImage), IsBreak)| == |pages|
  {
    CompileHeader(pages, year, caption, topicMap, includeImages, fetchImage, IsBreak);
    SelectNone([Heading(0, Title(year, caption)), Paragraph(CountLine(|pages|))], IsBreak);
    BlocksBreaks(pages, topicMap, includeImages, fetchImage);
  }

  lemma {:induction false} BlocksHeadings(pages: seq<Record>, topicMap: map<string, string>, includeImages: bool,
                                          fetchImage: string -> Option<ImageResponse>)
    ensures Select(Blocks(pages, topicMap, includeImages, fetchImage), IsQuestionHeading)
            == seq(|pages|, k requires 0 <= k < |pages| => Heading(2, QuestionHeading(k + 1, pages[k].questionId)))
    decreases |pages|
  {
    if pages != [] {
      var front, n := pages[..|pages| - 1], |pages|;
      BlocksHeadings(front, topicMap, includeImages, fetchImage);
      SelectAppend(Blocks(front, topicMap, includeImages, fetchImage),
                   Block(pages[n - 1], n, topicMap, includeImages, fetchImage), IsQuestionHeading);
      BlockHeadings(pages[n - 1], n, topicMap, includeImages, fetchImage);
      HeadingListStep(pages);
    }
  }

  /** The list of question headings of the pages, split before its last one. */
  lemma HeadingListStep(pages: seq<Record>)
    requires pages != []
    ensures var n, front := |pages|, pages[..|pages| - 1];
            seq(n, k requires 0 <= k < n => Heading(2, QuestionHeading(k + 1, pages[k].questionId)))
            == seq(n - 1, k requires 0 <= k < n - 1 => Heading(2, QuestionHeading(k + 1, front[k].questionId)))
               + [Heading(2, QuestionHeading(n, pages[n - 1].questionId))]
  {
  }

  /** The question headings appear in input order, numbered from 1, each
      with its page's question id. */
  lemma QuestionHeadingsInOrder(pages: seq<Record>, year: string, caption: string, topicMap: map<string, string>,
                                includeImages: bool, fetchImage: string -> Option<ImageResponse>)
    ensures Select(Compile(pages, year, caption, topicMap, includeImages, fetchImage), IsQuestionHeading)
            == seq(|pages|, k requires 0 <= k < |pages| => Heading(2, QuestionHeading(k + 1, pages[k].questionId)))
  {
    CompileHeader(pages, year, caption, topicMap, includeImages, fetchImage, IsQuestionHeading);
    SelectNone([Heading(0, Title(year, caption)), Paragraph(CountLine(|pages|))], IsQuestionHeading);
    BlocksHeadings(pages, topicMap, includeImages, fetchImage);
  }

  lemma {:induction false} BlocksText(pages: seq<Record>, topicMap: map<string, string>, includeImages: bool,
                                      fetchImage: string -> Option<ImageResponse>, other: string -> Option<ImageResponse>)
    ensures Select(Blocks(pages, topicMap, includeImages, fetchImage), IsText) == Blocks(pages, topicMap, false, other)
    decreases |pages|
  {
    if pages != [] {
      var front, n := pages[..|pages| - 1], |pages|;
      BlocksText(front, topicMap, includeImages, fetchImage, other);
      SelectAppend(Blocks(front, topicMap, includeImages, fetchImage),
                   Block(pages[n - 1], n, topicMap, includeImages, fetchImage), IsText);
      BlockText(pages[n - 1], n, topicMap, includeImages, fetchImage, other);
    }
  }

  /** Image failures are isolated: whatever the image downloads do, the
      document without what the image loop added (its pictures and the
      empty paragraphs of unreadable ones) is the document built without
      images. */
  lemma ImageFailureIsolation(pages: seq<Record>, year: string, caption: string, topicMap: map<string, string>,
                              includeImages: bool, fetchImage: string -> Option<ImageResponse>,
                              other: string -> Option<ImageResponse>)
    ensures Select(Compile(pages, year, caption, topicMap, includeImages, fetchImage), IsText)
            == Compile(pages, year, caption, topicMap, false, other)
  {
    CompileHeader(pages, year, caption, topicMap, includeImages, fetchImage, IsText);
    SelectAll([Heading(0, Title(year, caption)), Paragraph(CountLine(|pages|))], IsText);
    BlocksText(pages, topicMap, includeImages, fetchImage, other);
  }

  lemma {:induction false} BlocksPictures(pages: seq<Record>, topicMap: map<string, string>, includeImages: bool,
                                          fetchImage: string -> Option<ImageResponse>, d: Bytes)
    ensures Picture(d) in Blocks(pages, topicMap, includeImages, fetchImage) <==>
            includeImages && exists k, u :: 0 <= k < |pages| && u in pages[k].images
                                            && Embedded(fetchImage, u) && fetchImage(u).value.content == d
    decreases |pages|
  {
    if pages != [] {
      var front, n := pages[..|pages| - 1], |pages|;
      BlocksPictures(front, topicMap, includeImages, fetchImage, d);
      BlockPictureMembers(pages[n - 1], n, topicMap, includeImages, fetchImage, d);
      SourcesSplit(pages, fetchImage, d);
    }
  }

  /** A picture is in one block exactly when images were wanted and the
      block's page lists an image whose download gave those bytes as a
      readable picture. */
  lemma BlockPictureMembers(p: Record, i: nat, topicMap: map<string, string>, includeImages: bool,
                            fetchImage: string -> Option<ImageResponse>, d: Bytes)
    ensures Picture(d) in Block(p, i, topicMap, includeImages, fetchImage) <==>
            includeImages && exists u :: u in p.images && Embedded(fetchImage, u) && fetchImage(u).value.content == d
  {
    BlockPictures(p, i, topicMap, includeImages, fetchImage);
    SelectMembers(Block(p, i, topicMap, includeImages, fetchImage), IsImageOutput, Picture(d));
    PicturesMembers(p.images, fetchImage, d);
  }

  /** An image of one of the pages is an image of one of the pages before
      the last, or of the last page. */
  lemma SourcesSplit(pages: seq<Record>, fetchImage: string -> Option<ImageResponse>, d: Bytes)
    requires pages != []
    ensures var front, n := pages[..|pages| - 1], |pages|;
            (exists k, u :: 0 <= k < n && u in pages[k].images
                              && Embedded(fetchImage, u) && fetchImage(u).value.content == d)
            <==> (|| (exists k, u :: 0 <= k < n - 1 && u in front[k].images
                                     && Embedded(fetchImage, u) && fetchImage(u).value.content == d)
                  || (exists u :: u in pages[n - 1].images
                                  && Embedded(fetchImage, u) && fetchImage(u).value.content == d))
  {
    var front, n := pages[..|pages| - 1], |pages|;
    if exists k, u :: 0 <= k < n && u in pages[k].images && Embedded(fetchImage, u) && fetchImage(u).value.content == d {
      var k, u :| 0 <= k < n && u in pages[k].images && Embedded(fetchImage, u) && fetchImage(u).value.content == d;
      if k < n - 1 {
        assert front[k] == pages[k];
      }
    }
    if exists k, u :: 0 <= k < n - 1 && u in front[k].images && Embedded(fetchImage, u) && fetchImage(u).value.content == d {
      var k, u :| 0 <= k < n - 1 && u in front[k].images && Embedded(fetchImage, u) && fetchImage(u).value.content == d;
      assert pages[k] == front[k];
    }
  }

  /** A picture is in the document exactly when images were wanted and
      one of the pages lists an image whose download gave those bytes as a
      readable picture. */
  lemma PicturesInDocument(pages: seq<Record>, year: string, caption: string, topicMap: map<string, string>,
                           includeImages: bool, fetchImage: string -> Option<ImageResponse>, d: Bytes)
    ensures Picture(d) in Compile(pages, year, caption, topicMap, includeImages, fetchImage) <==>
            includeImages && exists k, u :: 0 <= k < |pages| && u in pages[k].images
                                            && Embedded(fetchImage, u) && fetchImage(u).value.content == d
  {
    BlocksPictures(pages, topicMap, includeImages, fetchImage, d);
  }

  /** The blocks of a prefix of the pages begin the blocks of all pages. */
  lemma {:induction false} BlocksPrefix(pages: seq<Record>, m: nat, topicMap: map<string, string>,
                                        includeImages: bool, fetchImage: string -> Option<ImageResponse>)
    requires m <= |pages|
    ensures Blocks(pages[..m], topicMap, includeImages, fetchImage) <= Blocks(pages, topicMap, includeImages, fetchImage)
    decreases |pages|
  {
    if m == |pages| {
      assert pages[..m] == pages;
    } else {
      var front := pages[..|pages| - 1];
      BlocksPrefix(front, m, topicMap, includeImages, fetchImage);
      assert front[..m] == pages[..m];
    }
  }

  /** Page k's block sits in the document right after the title, the
      count line and the blocks of the pages before it. */
  lemma BlockPlacement(pages: seq<Record>, year: string, caption: string, topicMap: map<string, string>,
                       includeImages: bool, fetchImage: string -> Option<ImageResponse>, k: nat)
    requires k < |pages|
    ensures var doc := Compile(pages, year, caption, topicMap, includeImages, fetchImage);
            var start := 2 + |Blocks(pages[..k], topicMap, includeImages, fetchImage)|;
            var block := Block(pages[k], k + 1, topicMap, includeImages, fetchImage);
            && start + |block| <= |doc|
            && doc[start..start + |block|] == block
  {
    BlockAfterPrefix(pages, k, topicMap, includeImages, fetchImage);
    SliceAfterPrefix(Compile(pages, year, caption, topicMap, includeImages, fetchImage),
                     [Heading(0, Title(year, caption)), Paragraph(CountLine(|pages|))],
                     Blocks(pages[..k], topicMap, includeImages, fetchImage),
                     Block(pages[k], k + 1, topicMap, includeImages, fetchImage),
                     Blocks(pages, topicMap, includeImages, fetchImage));
  }

  /** The blocks of the pages before page k, then page k's block, begin
      the blocks of all pages. */
  lemma BlockAfterPrefix(pages: seq<Record>, k: nat, topicMap: map<string, string>,
                         includeImages: bool, fetchImage: string -> Option<ImageResponse>)
    requires k < |pages|
    ensures Blocks(pages[..k], topicMap, includeImages, fetchImage)
            + Block(pages[k], k + 1, topicMap, includeImages, fetchImage)
            <= Blocks(pages, topicMap, includeImages, fetchImage)
  {
    BlocksPrefix(pages, k + 1, topicMap, includeImages, fetchImage);
    BlocksStep(pages, k, topicMap, includeImages, fetchImage);
  }

  lemma SliceAfterPrefix(doc: seq<Element>, header: seq<Element>, before: seq<Element>, block: seq<Element>,
                         all: seq<Element>)
    requires doc == header + all && before + block <= all
    ensures |header| + |before| + |block| <= |doc|
    ensures doc[|header| + |before|..|header| + |before| + |block|] == block
  {
    var start := |header| + |before|;
    forall i | 0 <= i < |block|
      ensures (header + all)[start..start + |block|][i] == block[i]
    {
      assert (before + block)[|before| + i] == block[i];
    }
  }
}
