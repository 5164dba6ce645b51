# medu4 exam-question scraper: a Dafny model of its core

This project models the core of `getmeduall.py`, a Streamlit tool that
collects Japanese national medical exam questions from medu4.com and turns
them into a Word document. The core has four parts:

- **Page extraction** (`get_page_text`), module `Page`. One HTTP request
  for a question page. The parsed page becomes a record with an id, the
  problem text, the choices, the answer, the explanation and the full-size
  `.jpg` image addresses. Each missing part gets its Japanese sentinel
  ("解答なし", "問題番号なし", "解説なし", "問題文なし"). A failed request,
  a status other than 200 or a markup shape that makes the Python raise
  yields `None`.
- **Section crawling** (`scrape_sections`), module `Crawler`. For each
  section, in order, numbers 1 to 80 are requested as `year + sec + str(num)`
  on `https://medu4.com/`. A page that answers is kept with the requested
  id stamped on it, and the failure counter resets. The section ends at
  the third failure in a row.
- **The topic table** (`load_topic_mapping` and its lookup), module
  `Topics`. The table maps a question id to its unit name. A table that
  fails to load gives the empty mapping. A lookup that misses gives
  "分野名なし".
- **Document compilation** (`create_word_doc`), module `Document`. The
  document is the sequence of elements added to it:
  - a title heading and the count line;
  - then, per page, a level-2 heading, the unit line, the problem text,
    what the image loop adds, "選択肢：", one paragraph per choice, the
    answer, the explanation and a page break;
  - the image loop adds, for each image url that answered with status 200,
    its picture, or an empty paragraph when the body cannot be read as a
    picture (python-docx adds the paragraph before it reads the bytes, and
    the bare `except` leaves it there). A url whose request raises or
    answers with another status adds nothing.

  The method also returns the file name the document is saved under.

Module `Text` holds the Python string operations these depend on:
- `str.strip()` with Python's whitespace set;
- `in` on strings;
- `str.replace`;
- `str(n)`;
- the id pattern `[0-9]{3}[A-Za-z][0-9]+` searched leftmost and greedy.

Module `Wrappers` holds `Option`.

The loops of `get_page_text` and `scrape_sections` are methods with loop
invariants:
- the image loop of `get_page_text`;
- the crawl loop of `scrape_sections`, with its failure counter and
  `break`.

The page loop of `create_word_doc`, with its picture and choice loops, is
also a method. Each method is proved equal to a recursive specification
function (`JpgImages`, `CrawlSection`/`AllRecords`, `Compile`). The
lemmas about those functions state what the source promises.

The network is an oracle. `Page.GetPageText` takes
`net: string -> Option<Response>`, where `None` means the request
raised. The crawler takes the page oracle `fetch: string -> Option<Record>`.
The instance the program uses is `Page.Fetcher(net, includeImages)`, and
`Page.GetPageText` is proved equal to it. The image downloads of
`create_word_doc` are the oracle `fetchImage: string -> Option<ImageResponse>`,
where `None` means the request raised and an answer carries its status, its
body and whether python-docx can read that body as a picture.

Three behaviours of the code that the model keeps as written:
- When a page has a second `h4` that holds no question number,
  `re.search(...)` returns `None` and `.group(1)` raises. The bare `except`
  then drops the whole page, so `Page.Extract` gives `None`; the
  "問題番号なし" sentinel is used only when there is no second `h4`.
- There is no unit label read from the page: the unit is looked up in the
  table by question id, with "分野名なし" when the id is missing.
- The crawler always overwrites the page's own question id with the
  requested id (line 96). The id parsed from the page never reaches the
  document when the crawler produced the records.

## Model

| member | source | states |
|---|---|---|
| Text.Strip | getmeduall.py:31-36 | `str.strip()`: the result is a contiguous piece of the input with nothing but whitespace before and after it, and it neither starts nor ends with whitespace |
| Text.StripIdempotent | getmeduall.py:34 | stripping an already stripped text changes nothing |
| Text.StripKeepsTrimmed | getmeduall.py:31-36 | a text without leading or trailing whitespace is returned as is |
| Text.ContainsIff | getmeduall.py:43 | `'.jpg' in href` holds exactly when `.jpg` occurs at some index of `href` |
| Text.ReplaceAbsent | getmeduall.py:44 | `replace` leaves a string without an occurrence of the pattern unchanged |
| Text.RemoveShortens | getmeduall.py:44 | removing `thumb_` never lengthens an address and shortens it whenever `thumb_` occurs |
| Text.RemoveUnchangedIff | getmeduall.py:44 | removing a pattern leaves the string unchanged exactly when the pattern does not occur |
| Text.ReplaceKeepsPrefix | getmeduall.py:44 | a prefix none of whose characters starts the pattern survives the replacement |
| Text.JpgAfterThumb | getmeduall.py:43-44 | in an address starting with `thumb_`, the `.jpg` lies after that prefix |
| Text.RemoveThumbKeepsJpg | getmeduall.py:43-44 | stripping `thumb_` from a `.jpg` address leaves a `.jpg` address |
| Text.DigitChar | getmeduall.py:92 | a digit value below 10 renders as an ASCII digit |
| Text.DigitValue | getmeduall.py:92 | reading an ASCII digit gives a value below 10 that renders back as the same digit |
| Text.NatToString | getmeduall.py:92 | `str(num)` is a non-empty string of decimal digits that starts with `0` only for zero (no padding) |
| Text.ParseNatToString | getmeduall.py:92 | reading back `str(n)` gives `n` |
| Text.NatToStringInjective | getmeduall.py:92 | distinct numbers render differently |
| Text.SkipSpaces | getmeduall.py:31-36 | the first non-whitespace index at or after a position, with only whitespace skipped |
| Text.DropTrailingSpaces | getmeduall.py:31-36 | the end of a prefix once its trailing whitespace is dropped, with only whitespace dropped |
| Text.DigitRunEnd | getmeduall.py:35 | `[0-9]+` taken greedily: the run of digits from a position ends at a non-digit or at the end of the text |
| Text.FirstMatch | getmeduall.py:35 | the leftmost position where the id pattern matches, with no match before it; `None` exactly when it matches nowhere |
| Text.SearchId | getmeduall.py:35 | `re.search` of the id pattern: `None` exactly when the pattern matches nowhere, else a full id token taken at the leftmost match and extended over every trailing digit |
| Page.Choices | getmeduall.py:31-32 | the choice list exists exactly when every box has a header and a second span; it then has one entry per box, in order, each `header.strip() + " " + span.strip()` |
| Page.Extract | getmeduall.py:26-28 | a record comes only from a response that arrived with status 200 |
| Page.ExtractNoneIff | getmeduall.py:24-55 | no record exactly when the request raised, the status is not 200, some choice box lacks its header or second span, or a second `h4` holds no question number |
| Page.ExtractFields | getmeduall.py:30-53 | each field of a returned record: the stripped text or the sentinel for a missing answer, id, problem or explanation; one choice per box in order; images only when asked for |
| Page.CollectImages | getmeduall.py:39-44 | the image loop lists, div by div and link by link, the `thumb_`-stripped address of every `.jpg` href |
| Page.GetPageText | getmeduall.py:24-55 | `get_page_text` returns the extraction of the response to its one request, which is the page oracle the crawler is given |
| Page.JpgImagesMembers | getmeduall.py:40-44 | an address is listed exactly when it is the full-size form of some `.jpg` href |
| Page.JpgImagesAppend | getmeduall.py:41-44 | the image list of two runs of hrefs is their lists joined in order |
| Page.ImagesAreJpg | getmeduall.py:43-44 | every listed image is a `.jpg` address, and a `.jpg` href without `thumb_` is listed exactly as written |
| Page.HrefsAppend | getmeduall.py:40-41 | the hrefs of two runs of divs are their hrefs joined in order |
| Page.ImagesByDiv | getmeduall.py:40-44 | a page's images are those of its image divs, div after div |
| Topics.LoadTopicMapping | getmeduall.py:15-22 | a table that failed to load gives the empty mapping; otherwise the mapping has an entry for exactly the ids in the first column |
| Topics.BuildMappingKeys | getmeduall.py:18 | `dict(zip(...))` has exactly the first-column ids as keys |
| Topics.BuildMappingLastWins | getmeduall.py:18 | an id's entry is the value of the last row that carries it |
| Topics.UnitFromTable | getmeduall.py:63 | the unit a page gets is the value of the last table row with its id, or "分野名なし" when no row has it; this is the contract that stands for `Topics.UnitOf`, the lookup itself |
| Crawler.ScrapeSections | getmeduall.py:85-107 | the records collected and the ids requested are those of each section's crawl, section after section |
| Crawler.ScrapeSection | getmeduall.py:90-103 | the inner loop keeps and requests exactly what the crawl of that section specifies |
| Crawler.SuccessStep | getmeduall.py:95-98 | an answered request adds its id and its stamped record, and the crawl goes on with the counter reset |
| Crawler.FailureStep | getmeduall.py:99-103 | a failed request adds its id; the third failure in a row ends the section, an earlier one continues with the counter one higher |
| Crawler.IdsAt | getmeduall.py:91-92 | the ids for a range of numbers come one per number, in increasing order |
| Crawler.FailRunStreak | getmeduall.py:100-101 | the failure counter reaches three exactly at the third failure in a row |
| Crawler.CrawlFromAttempted | getmeduall.py:91-93 | the rest of a crawl requests the following numbers in order, at least one while numbers remain, never past 80, and all of them unless it aborts |
| Crawler.CrawlFromRecords | getmeduall.py:94-98 | the rest of a crawl keeps one stamped record per answered page among the numbers it requested, in order |
| Crawler.CrawlFromCons | getmeduall.py:91-102 | a crawl that goes on past a number has requested it, kept its stamped record when it answered, and continues with the counter reset or one higher |
| Crawler.StopAfterSuccess | getmeduall.py:94-98 | an answered request resets the failure run, so where the crawl stops is decided by the rest |
| Crawler.StopAfterFailure | getmeduall.py:99-101 | a failure short of the third lengthens the run by one and the crawl goes on |
| Crawler.StopAfter | getmeduall.py:94-101 | a request that does not complete three failures in a row leaves the stopping point to the rest of the crawl |
| Crawler.StopAtThirdFailure | getmeduall.py:99-103 | the third failure in a row ends the section at that number, aborted |
| Crawler.CrawlFromStop | getmeduall.py:99-103 | with the true failure run behind it, the rest of a crawl aborts exactly at the first point where three failures in a row end |
| Crawler.CrawlSectionSpec | getmeduall.py:90-103 | a section requests numbers 1 to n in order with 1 ≤ n ≤ 80, keeps the answered ones, aborts exactly when numbers n-2..n all failed, has no such streak earlier, and runs to 80 when it does not abort |
| Crawler.SectionRequests | getmeduall.py:90-93 | a section requests the ids of numbers 1 to n in order, 1 ≤ n ≤ 80, and all 80 unless it aborts |
| Crawler.SectionRecords | getmeduall.py:94-97 | a section keeps the stamped records of the answered pages among the numbers it requested, in order |
| Crawler.SectionStops | getmeduall.py:99-103 | a section aborts exactly when its last three requests all failed, with no such streak earlier |
| Crawler.SectionIdsRequested | getmeduall.py:91-93 | the i-th id requested is `year + sec + str(i + 1)`, and no id is requested twice |
| Crawler.StopsAtFirstStreak | getmeduall.py:99-103 | the first streak of three failures, ending at number k, aborts the section after exactly k requests |
| Crawler.HarvestMembers | getmeduall.py:94-97 | a record is kept exactly when it is an answered page's record with the requested id in place of its own |
| Crawler.HarvestAllSucceed | getmeduall.py:94-97 | when every page answers, the i-th kept record carries the i-th requested id |
| Crawler.FullyResponsiveSection | getmeduall.py:91-98 | a section whose every page answers is crawled in full: 80 requests, 80 records, the i-th stamped with number i + 1 |
| Crawler.QuestionIdInjective | getmeduall.py:92 | within a section, distinct numbers give distinct ids |
| Crawler.AllRecordsAppend | getmeduall.py:86-97 | crawling two lists of sections one after the other collects the records of each, in that order |
| Crawler.AllAttemptedAppend | getmeduall.py:87-93 | the same for the ids requested |
| Crawler.SectionRecordMembers | getmeduall.py:90-103 | a section keeps a record exactly for each requested number whose page answered: that response with the requested id stamped on it |
| Crawler.CollectedRecords | getmeduall.py:85-107 | a record is collected exactly when it is kept by one of the sections for one of its requested numbers |
| Document.CreateWordDoc | getmeduall.py:57-83 | the document built is the title, the count line and one block per page in input order, and the file name is `year_caption_medu4.docx` |
| Document.AddBlock | getmeduall.py:61-80 | one iteration of the page loop appends exactly that page's block |
| Document.AddPictures | getmeduall.py:67-74 | the image loop appends, url by url in list order, the picture of each url that answered 200 with a readable body, an empty paragraph for one that answered 200 with an unreadable body, and nothing for the others |
| Document.BlockLayout | getmeduall.py:62-80 | the pieces added in one iteration add up to the page's block |
| Document.BlocksStep | getmeduall.py:61 | one more page adds its block, numbered after the pages before it |
| Document.SelectAppend | getmeduall.py:58-80 | picking elements of a kind from two stretches of the document picks from each, in order |
| Document.SelectAll | getmeduall.py:58-80 | picking from a stretch whose every element is of the kind keeps it all |
| Document.SelectNone | getmeduall.py:58-80 | picking from a stretch with no element of the kind keeps nothing |
| Document.SelectMembers | getmeduall.py:58-80 | an element is picked exactly when it is in the document and of the kind |
| Document.PicturesAreImageOutput | getmeduall.py:67-74 | the image loop adds only pictures and the empty paragraphs of unreadable ones |
| Document.ChoicesAreParagraphs | getmeduall.py:76-77 | the choice loop adds only paragraphs |
| Document.SelectBlock | getmeduall.py:62-80 | picking from a block picks from its pieces, in order |
| Document.OpeningKinds | getmeduall.py:62-65 | a block's opening holds its one question heading and only text: no picture, no page break |
| Document.ShownKinds | getmeduall.py:66-74 | what the image loop adds holds no heading, no page break and no text but its own empty paragraphs |
| Document.LabelKinds | getmeduall.py:75 | the line introducing the choices is text only |
| Document.ChoiceKinds | getmeduall.py:76-77 | what the choice loop adds is text only |
| Document.ClosingKinds | getmeduall.py:78-80 | a block's closing is the answer and explanation as text, then its one page break |
| Document.BlockBreaks | getmeduall.py:80 | every block holds exactly one page break |
| Document.BlockHeadings | getmeduall.py:62 | every block holds exactly one level-2 heading: `問題{i} {question_id}` |
| Document.BlockPictures | getmeduall.py:66-74 | what the image loop adds to a block is what its page's image urls give, and nothing when images are off or the page lists none |
| Document.BlockText | getmeduall.py:62-80 | a block without what its image loop added is the block built with images off |
| Document.PicturesAppend | getmeduall.py:67-74 | the image urls are handled one by one, in order |
| Document.SkipFailedImage | getmeduall.py:68-74 | an image whose request raises or does not answer 200 adds nothing, and the rest is added as if it were not listed |
| Document.UnreadableImage | getmeduall.py:71-74 | an image that answers 200 with a body that is not a readable picture leaves exactly one empty paragraph in its place, and the images around it still appear |
| Document.AllImagesFetched | getmeduall.py:67-72 | when every image answers 200 with a readable picture, each url gives its picture, in url order |
| Document.PicturesMembers | getmeduall.py:67-74 | a picture is added exactly when one of the urls answered 200 with a readable picture of that content |
| Document.CompileHeader | getmeduall.py:59-60 | picking from the document picks from the title and count line first, then from the blocks |
| Document.BlocksBreaks | getmeduall.py:61-80 | the blocks hold one page break per page |
| Document.PageBreakCount | getmeduall.py:57-83 | the document has exactly as many page breaks as pages |
| Document.BlocksHeadings | getmeduall.py:61-62 | the level-2 headings of the blocks are `問題{k+1} {id of page k}`, in page order |
| Document.QuestionHeadingsInOrder | getmeduall.py:57-83 | the document's question headings are numbered from 1 and carry the pages' ids in input order, one per page |
| Document.BlocksText | getmeduall.py:61-80 | the blocks without what their image loops added are the blocks built with images off |
| Document.ImageFailureIsolation | getmeduall.py:57-83 | whatever the image requests give (raising, another status, an unreadable body), the document without what the image loops added (pictures and the empty paragraphs of unreadable ones) is the document built with images off |
| Document.BlocksPictures | getmeduall.py:61-80 | a picture is in the blocks exactly when images are on and some page lists an image that answered 200 with a readable picture of that content |
| Document.PicturesInDocument | getmeduall.py:57-83 | a picture is in the document exactly when images are on and some page lists an image that answered 200 with a readable picture of that content |
| Document.BlocksPrefix | getmeduall.py:61-80 | the blocks of the first pages begin the blocks of all pages |
| Document.BlockPictureMembers | getmeduall.py:66-74 | a picture is in one page's block exactly when images are on and that page lists an image that answered 200 with a readable picture of that content |
| Document.BlockAfterPrefix | getmeduall.py:61-80 | the blocks of the pages before page k, then page k's block, begin the blocks of all pages |
| Document.BlockPlacement | getmeduall.py:57-83 | page k's block sits in the document right after the title, the count line and the blocks of the pages before it |

## Left out

- The Streamlit user interface (getmeduall.py:109 onwards), the section headers, the progress bar, the warning printed when a section is skipped and `st.error` in the loader: these are display output only.
- `time.sleep(0.15)`: waiting has no effect on what is computed.
- `requests.get`: the page, image and request outcomes are oracles passed as parameters. No transport detail is modelled.
- BeautifulSoup parsing: a page arrives as `Page.ParsedPage`, already split into the parts the extractor reads. How HTML maps to those parts is not part of this model.
- `pandas.read_csv` and `@st.cache_data`: the table arrives as its rows, or `None`. Its second column is taken as strings; the pandas value types are not modelled.
- python-docx: formatting, `Inches(2.5)`, image decoding and `doc.save` are not modelled. Whether a body can be read as a picture is the `readable` flag of the image oracle's answer; an unreadable one leaves the empty paragraph that `add_picture` had already added, and a run inside it is not modelled. The model keeps that paragraph apart from the `Paragraph("")` an empty field of a page gives, which the saved file does not; this is what lets `Document.ImageFailureIsolation` remove exactly what the image loops added.
- The oracles are functions of the url alone: a url requested twice (an image listed by two pages, or twice on one page through nested image divs) gives the same answer both times. Answers that change between requests are not modelled.
- The `topic_map` parameter of `scrape_sections` is never used by the source. The crawler model does not take it.
- `Text.Replace` is modelled only for a non-empty pattern. The source only replaces `thumb_`.
- The in-place update of the page's dictionary (`data["question_id"] = qid`, line 96): the model produces an updated copy. No other reference to that dictionary exists, so nothing observable differs.
