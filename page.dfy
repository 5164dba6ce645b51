/** The page extractor, `get_page_text` (getmeduall.py:24-55). The HTML
    parser is not modelled: a fetched page arrives already broken into the
    parts the extractor looks for. Every condition under which the Python
    raises (and its bare `except` turns into `None`) yields `None` here. */
module Page {
  import opened Wrappers
  import opened Text

  const NoAnswer: string := "解答なし"
  const NoQuestionNumber: string := "問題番号なし"
  const NoExplanation: string := "解説なし"
  const NoProblem: string := "問題文なし"

  /** One `div.box-select`: the text of its first `span.choice-header`, if
      it has one, and the texts of all its `span`s in document order. */
  datatype ChoiceBox = ChoiceBox(header: Option<string>, spans: seq<string>)

  /** What the extractor reads from a parsed page. */
  datatype ParsedPage = ParsedPage(
    problem: Option<string>,       // text of the `div.quiz-body mb-64`, if any
    choiceBoxes: seq<ChoiceBox>,   // every `div.box-select`, in document order
    headings: seq<string>,         // text of every `h4`, in document order
    explanation: Option<string>,   // text of the first `div.explanation`, if any
    imageDivs: seq<seq<string>>)   // per `div.box-quiz-image`, the hrefs of its `a[href]`

  /** A response to a page request: its status code and its parsed body. */
  datatype Response = Response(status: int, page: ParsedPage)

  /** The dictionary `get_page_text` returns. */
  datatype Record = Record(
    questionId: string,
    problem: string,
    choices: seq<string>,
    answer: string,
    explanation: string,
    images: seq<string>)

  /** A choice box the list comprehension can read: the header lookup does
      not return `None` and `find_all('span')[1]` exists. */
  predicate WellFormedBox(b: ChoiceBox) {
    b.header.Some? && |b.spans| >= 2
  }

  /** `f"{header.strip()} {spans[1].strip()}"` */
  function ChoiceText(b: ChoiceBox): string
    requires WellFormedBox(b)
  {
    Strip(b.header.value) + " " + Strip(b.spans[1])
  }

  /** The `choices` list comprehension; `None` when it raises. */
  function Choices(boxes: seq<ChoiceBox>): (r: Option<seq<string>>)
    ensures r.Some? <==> forall i :: 0 <= i < |boxes| ==> WellFormedBox(boxes[i])
    ensures r.Some? ==> |r.value| == |boxes|
    ensures r.Some? ==> forall i :: 0 <= i < |boxes| ==> r.value[i] == ChoiceText(boxes[i])
  {
    if boxes == [] then Some([])
    else if !WellFormedBox(boxes[0]) then None
    else
      match Choices(boxes[1..])
      case None => None
      case Some(rest) => Some([ChoiceText(boxes[0])] + rest)
  }

  /** `ans`: the first `h4`, stripped, or the sentinel. */
  function Answer(headings: seq<string>): string {
    if |headings| > 0 then Strip(headings[0]) else NoAnswer
  }

  /** `qid`: the id searched for in the second `h4`, or the sentinel when
      there is none; `None` when the search finds nothing and `.group`
      raises. */
  function QuestionNumber(headings: seq<string>): Option<string> {
    if |headings| >= 2 then SearchId(headings[1]) else Some(NoQuestionNumber)
  }

  /** An optional element's stripped text, or the sentinel. */
  function TextOr(element: Option<string>, sentinel: string): string {
    match element
    case Some(t) => Strip(t)
    case None => sentinel
  }

  /** `'.jpg' in href` */
  predicate IsJpg(href: string) {
    Contains(href, ".jpg")
  }

  /** `href.replace('thumb_', '')` */
  function FullSize(href: string): string {
    Replace(href, "thumb_", "")
  }

  /** The hrefs of all image divs, in document order. */
  function Hrefs(divs: seq<seq<string>>): seq<string> {
    if divs == [] then [] else Hrefs(divs[..|divs| - 1]) + divs[|divs| - 1]
  }

  /** The full-size address of every `.jpg` href, in order. */
  function JpgImages(hrefs: seq<string>): seq<string> {
    if hrefs == [] then []
    else
      var last := hrefs[|hrefs| - 1];
      JpgImages(hrefs[..|hrefs| - 1]) + (if IsJpg(last) then [FullSize(last)] else [])
  }

  /** `get_page_text` on the response to its one request (`None` when the
      request raised). */
  function Extract(resp: Option<Response>, getImages: bool): (r: Option<Record>)
    ensures r.Some? ==> resp.Some? && resp.value.status == 200
  {
    match resp
    case None => None
    case Some(Response(status, page)) =>
      if status != 200 then None
      else
        match (Choices(page.choiceBoxes), QuestionNumber(page.headings))
        case (Some(choices), Some(qid)) =>
          Some(PageRecord(page, choices, qid, if getImages then JpgImages(Hrefs(page.imageDivs)) else []))
        case _ => None
  }

  /** The dictionary `get_page_text` returns for `page`, once its choices,
      its question id and its image list are known. */
  function PageRecord(page: ParsedPage, choices: seq<string>, qid: string, images: seq<string>): Record {
    Record(
      questionId := qid,
      problem := TextOr(page.problem, NoProblem),
      choices := choices,
      answer := Answer(page.headings),
      explanation := TextOr(page.explanation, NoExplanation),
      images := images)
  }

  /** When `get_page_text` gives no record: the request raised, the
      status is not 200, a choice box lacks its header or its second span,
      or there are two `h4`s and the second holds no question number. */
  lemma ExtractNoneIff(resp: Option<Response>, getImages: bool)
    ensures Extract(resp, getImages).None? <==>
      || resp.None?
      || resp.value.status != 200
      || (exists i :: 0 <= i < |resp.value.page.choiceBoxes| && !WellFormedBox(resp.value.page.choiceBoxes[i]))
      || (|resp.value.page.headings| >= 2 && forall i :: 0 <= i < |resp.value.page.headings[1]| ==> !MatchesAt(resp.value.page.headings[1], i))
  {
  }

  /** The fields of a record `get_page_text` returns: each missing part
      gets its sentinel; the choices keep document order; the images are
      listed only when asked for. */
  lemma ExtractFields(resp: Option<Response>, getImages: bool)
    requires Extract(resp, getImages).Some?
    ensures var r, page := Extract(resp, getImages).value, resp.value.page;
      && (|page.headings| == 0 ==> r.answer == NoAnswer)
      && (|page.headings| > 0 ==> r.answer == Strip(page.headings[0]))
      && (|page.headings| < 2 ==> r.questionId == NoQuestionNumber)
      && (|page.headings| >= 2 ==> IsIdToken(r.questionId) && Some(r.questionId) == SearchId(page.headings[1]))
      && (page.problem.None? ==> r.problem == NoProblem)
      && (page.problem.Some? ==> r.problem == Strip(page.problem.value))
      && (page.explanation.None? ==> r.explanation == NoExplanation)
      && (page.explanation.Some? ==> r.explanation == Strip(page.explanation.value))
      && |r.choices| == |page.choiceBoxes|
      && (forall i :: 0 <= i < |page.choiceBoxes| ==> r.choices[i] == ChoiceText(page.choiceBoxes[i]))
      && r.images == (if getImages then JpgImages(Hrefs(page.imageDivs)) else [])
  {
  }

  /** The page oracle the crawler sees: request `url` on `net`, then
      extract. */
  function Fetcher(net: string -> Option<Response>, getImages: bool): string -> Option<Record> {
    url => Extract(net(url), getImages)
  }

  /** The image loop of `get_page_text` (lines 39-44). */
  method CollectImages(divs: seq<seq<string>>) returns (imgs: seq<string>)
    ensures imgs == JpgImages(Hrefs(divs))
  {
    imgs := [];
    for i := 0 to |divs|
      invariant imgs == JpgImages(Hrefs(divs[..i]))
    {
      var d := divs[i];
      assert divs[..i + 1][..i] == divs[..i];
      assert Hrefs(divs[..i]) + d[..0] == Hrefs(divs[..i]);
      for j := 0 to |d|
        invariant imgs == JpgImages(Hrefs(divs[..i]) + d[..j])
      {
        var href := d[j];
        assert (Hrefs(divs[..i]) + d[..j + 1])[..|Hrefs(divs[..i]) + d[..j + 1]| - 1] == Hrefs(divs[..i]) + d[..j];
        if IsJpg(href) {
          imgs := imgs + [FullSize(href)];
        }
      }
      assert d[..|d|] == d;
    }
    assert divs[..|divs|] == divs;
  }

  /** `get_page_text(url, get_images)` with its request sent to `net`. */
  method GetPageText(net: string -> Option<Response>, url: string, getImages: bool) returns (r: Option<Record>)
    ensures r == Extract(net(url), getImages)
    ensures r == Fetcher(net, getImages)(url)
  {
    var resp := net(url);
    if resp.None? {
      return None;
    }
    var status, page := resp.value.status, resp.value.page;
    if status != 200 {
      return None;
    }
    var choices := Choices(page.choiceBoxes);
    var qid := QuestionNumber(page.headings);
    if choices.None? || qid.None? {
      return None;
    }
    var imgs := [];
    if getImages {
      imgs := CollectImages(page.imageDivs);
    }
    r := Some(PageRecord(page, choices.value, qid.value, imgs));
  }

  // ---------------------------------------------------------------------
  // The image list

  lemma {:induction false} JpgImagesAppend(a: seq<string>, b: seq<string>)
    ensures JpgImages(a + b) == JpgImages(a) + JpgImages(b)
    decreases |b|
  {
    if b == [] {
      assert a + b == a;
    } else {
      var b' := b[..|b| - 1];
      assert (a + b)[..|a + b| - 1] == a + b';
      JpgImagesAppend(a, b');
    }
  }

  /** The image list holds exactly the full-size addresses of the `.jpg`
      hrefs. */
  lemma {:induction false} JpgImagesMembers(hrefs: seq<string>, y: string)
    ensures y in JpgImages(hrefs) <==> exists h :: h in hrefs && IsJpg(h) && y == FullSize(h)
    decreases |hrefs|
  {
    if hrefs != [] {
      var front := hrefs[..|hrefs| - 1];
      JpgImagesMembers(front, y);
      assert hrefs == front + [hrefs[|hrefs| - 1]];
      assert forall h :: h in hrefs <==> h in front || h == hrefs[|hrefs| - 1];
    }
  }

  /** Each listed image still names a `.jpg`, and a `.jpg` href without
      `thumb_` is listed exactly as written. */
  lemma ImagesAreJpg(hrefs: seq<string>)
    ensures forall y :: y in JpgImages(hrefs) ==> IsJpg(y)
    ensures forall h :: h in hrefs && IsJpg(h) && !Contains(h, "thumb_") ==> h in JpgImages(hrefs)
  {
    forall y | y in JpgImages(hrefs) ensures IsJpg(y) {
      JpgImagesMembers(hrefs, y);
      var h :| h in hrefs && IsJpg(h) && y == FullSize(h);
      RemoveThumbKeepsJpg(h);
    }
    forall h | h in hrefs && IsJpg(h) && !Contains(h, "thumb_") ensures h in JpgImages(hrefs) {
      ReplaceAbsent(h, "thumb_", "");
      JpgImagesMembers(hrefs, h);
    }
  }

  lemma {:induction false} HrefsAppend(a: seq<seq<string>>, b: seq<seq<string>>)
    ensures Hrefs(a + b) == Hrefs(a) + Hrefs(b)
    decreases |b|
  {
    if b == [] {
      assert a + b == a;
    } else {
      var b' := b[..|b| - 1];
      assert (a + b)[..|a + b| - 1] == a + b';
      HrefsAppend(a, b');
    }
  }

  /** The images of a page are those of its image divs, div after div. */
  lemma ImagesByDiv(a: seq<seq<string>>, b: seq<seq<string>>)
    ensures JpgImages(Hrefs(a + b)) == JpgImages(Hrefs(a)) + JpgImages(Hrefs(b))
  {
    HrefsAppend(a, b);
    JpgImagesAppend(Hrefs(a), Hrefs(b));
  }
}
