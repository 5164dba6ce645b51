/** The section crawler, `scrape_sections` (getmeduall.py:85-107).
    Sections are crawled one after another in the caller's order; within a
    section the numbers 1 to 80 are tried in turn, and the third failure in
    a row ends the section. The progress bar, the warning and the pause
    between requests are not modelled.

    The crawl of one section is stated for any numbering `id` of its pages
    (number to question id); the scraper uses `SectionIds(year, sec)`. */
module Crawler {
  import opened Wrappers
  import opened Text
  import opened Page

  const MaxNumber: nat := 80
  const MaxFailures: nat := 3
  const FirstNumber: nat := 1
  const Host: string := "https://medu4.com/"

  /** `f"{year}{sec}{num}"` */
  function QuestionId(year: string, sec: string, num: nat): string {
    year + sec + NatToString(num)
  }

  /** The numbering of one section's pages. */
  function SectionIds(year: string, sec: string): nat -> string {
    (num: nat) => QuestionId(year, sec, num)
  }

  /** The numbering of every section of a year. */
  function YearIds(year: string): string -> nat -> string {
    (sec: string) => SectionIds(year, sec)
  }

  /** `f"https://medu4.com/{qid}"` */
  function PageUrl(qid: string): string {
    Host + qid
  }

  /** What crawling one section does: the ids it requested, in order, the
      records it kept, in order, and whether it gave up on a failure
      streak (the Python's `break`). */
  datatype SectionOutcome = SectionOutcome(attempted: seq<string>, records: seq<Record>, aborted: bool)

  /** The rest of a section's crawl, from `num` on, with `fails` failures
      in a row behind it. */
  function CrawlFrom(id: nat -> string, fetch: string -> Option<Record>, num: nat, fails: nat): SectionOutcome
    requires 1 <= num <= MaxNumber + 1 && fails < MaxFailures
    decreases MaxNumber + 1 - num
  {
    if num > MaxNumber then SectionOutcome([], [], false)
    else
      var qid := id(num);
      match fetch(PageUrl(qid))
      case Some(data) =>
        var rest := CrawlFrom(id, fetch, num + 1, 0);
        SectionOutcome([qid] + rest.attempted, [data.(questionId := qid)] + rest.records, rest.aborted)
      case None =>
        if fails + 1 >= MaxFailures then SectionOutcome([qid], [], true)
        else
          var rest := CrawlFrom(id, fetch, num + 1, fails + 1);
          SectionOutcome([qid] + rest.attempted, rest.records, rest.aborted)
  }

  /** One section's crawl: number 1 first, with a fresh failure counter. */
  function CrawlSection(id: nat -> string, fetch: string -> Option<Record>): SectionOutcome {
    CrawlFrom(id, fetch, FirstNumber, 0)
  }

  /** The records of all sections, section after section, each section
      numbered by `ids`. */
  function AllRecords(ids: string -> nat -> string, sections: seq<string>, fetch: string -> Option<Record>): seq<Record> {
    if sections == [] then []
    else
      var last := sections[|sections| - 1];
      AllRecords(ids, sections[..|sections| - 1], fetch) + CrawlSection(ids(last), fetch).records
  }

  /** The ids requested over all sections, in request order. */
  function AllAttempted(ids: string -> nat -> string, sections: seq<string>, fetch: string -> Option<Record>): seq<string> {
    if sections == [] then []
    else
      var last := sections[|sections| - 1];
      AllAttempted(ids, sections[..|sections| - 1], fetch) + CrawlSection(ids(last), fetch).attempted
  }

  /** `scrape_sections(year, sections, topic_map, include_images)`.
      `fetch` stands for `get_page_text(url, get_images=include_images)`
      together with its request (`Page.Fetcher` models it). Besides the
      collected records it returns the ids it requested, in order. */
  method ScrapeSections(year: string, sections: seq<string>, fetch: string -> Option<Record>)
    returns (collected: seq<Record>, attempted: seq<string>)
    ensures collected == AllRecords(YearIds(year), sections, fetch)
    ensures attempted == AllAttempted(YearIds(year), sections, fetch)
  {
    collected, attempted := [], [];
    for s := 0 to |sections|
      invariant collected == AllRecords(YearIds(year), sections[..s], fetch)
      invariant attempted == AllAttempted(YearIds(year), sections[..s], fetch)
    {
      var kept, tried := ScrapeSection(SectionIds(year, sections[s]), fetch);
      assert YearIds(year)(sections[s]) == SectionIds(year, sections[s]);
      assert sections[..s + 1][..s] == sections[..s];
      AllAttemptedStep(YearIds(year), sections[..s + 1], fetch);
      collected, attempted := collected + kept, attempted + tried;
    }
    assert sections[..|sections|] == sections;
  }

  /** The body of the outer loop of `scrape_sections`: one section whose
      number `num` has the question id `id(num)`, numbers 1 to 80, stopping
      at the third failure in a row. */
  method ScrapeSection(id: nat -> string, fetch: string -> Option<Record>)
    returns (kept: seq<Record>, tried: seq<string>)
    ensures kept == CrawlSection(id, fetch).records
    ensures tried == CrawlSection(id, fetch).attempted
  {
    ghost var whole := CrawlSection(id, fetch);
    kept, tried := [], [];
    var failCount := 0;
    for num := FirstNumber to MaxNumber + 1
      invariant failCount < MaxFailures
      invariant kept + CrawlFrom(id, fetch, num, failCount).records == whole.records
      invariant tried + CrawlFrom(id, fetch, num, failCount).attempted == whole.attempted
    {
      var qid := id(num);
      var data := fetch(PageUrl(qid));
      if data.Some? {
        SuccessStep(id, fetch, num, failCount, kept, tried, whole);
        tried := tried + [qid];
        kept := kept + [data.value.(questionId := qid)];
        failCount := 0;
      } else {
        FailureStep(id, fetch, num, failCount, kept, tried, whole);
        tried := tried + [qid];
        failCount := failCount + 1;
        if failCount >= MaxFailures {
          break;
        }
      }
    }
  }

  /** A request that answers: its id and its stamped record join the
      results, and the crawl goes on with a fresh failure counter. */
  lemma SuccessStep(id: nat -> string, fetch: string -> Option<Record>, num: nat, fails: nat,
                    kept: seq<Record>, tried: seq<string>, whole: SectionOutcome)
    requires 1 <= num <= MaxNumber && fails < MaxFailures && !FailsAt(id, fetch, num)
    requires kept + CrawlFrom(id, fetch, num, fails).records == whole.records
    requires tried + CrawlFrom(id, fetch, num, fails).attempted == whole.attempted
    ensures kept + [fetch(PageUrl(id(num))).value.(questionId := id(num))]
            + CrawlFrom(id, fetch, num + 1, 0).records == whole.records
    ensures tried + [id(num)] + CrawlFrom(id, fetch, num + 1, 0).attempted == whole.attempted
  {
    var next := CrawlFrom(id, fetch, num + 1, 0);
    var stamped := fetch(PageUrl(id(num))).value.(questionId := id(num));
    assert CrawlFrom(id, fetch, num, fails).records == [stamped] + next.records;
    assert CrawlFrom(id, fetch, num, fails).attempted == [id(num)] + next.attempted;
    assert kept + [stamped] + next.records == kept + ([stamped] + next.records);
    assert tried + [id(num)] + next.attempted == tried + ([id(num)] + next.attempted);
  }

  /** A request that fails: its id joins the requests; on the third
      failure in a row the crawl of the section is over, otherwise it goes
      on with the counter one higher. */
  lemma FailureStep(id: nat -> string, fetch: string -> Option<Record>, num: nat, fails: nat,
                    kept: seq<Record>, tried: seq<string>, whole: SectionOutcome)
    requires 1 <= num <= MaxNumber && fails < MaxFailures && FailsAt(id, fetch, num)
    requires kept + CrawlFrom(id, fetch, num, fails).records == whole.records
    requires tried + CrawlFrom(id, fetch, num, fails).attempted == whole.attempted
    ensures fails + 1 >= MaxFailures ==> kept == whole.records && tried + [id(num)] == whole.attempted
    ensures fails + 1 < MaxFailures ==>
              && kept + CrawlFrom(id, fetch, num + 1, fails + 1).records == whole.records
              && tried + [id(num)] + CrawlFrom(id, fetch, num + 1, fails + 1).attempted == whole.attempted
  {
    if fails + 1 < MaxFailures {
      var next := CrawlFrom(id, fetch, num + 1, fails + 1);
      assert CrawlFrom(id, fetch, num, fails).attempted == [id(num)] + next.attempted;
      assert tried + [id(num)] + next.attempted == tried + ([id(num)] + next.attempted);
    } else {
      assert CrawlFrom(id, fetch, num, fails) == SectionOutcome([id(num)], [], true);
    }
  }

  // ---------------------------------------------------------------------
  // What a section's crawl does, stated without the loop

  /** The request for number `k` of the section came back empty. */
  predicate FailsAt(id: nat -> string, fetch: string -> Option<Record>, k: nat) {
    fetch(PageUrl(id(k))).None?
  }

  /** The numbers `k - 2`, `k - 1` and `k` all failed. */
  predicate StreakEndsAt(id: nat -> string, fetch: string -> Option<Record>, k: nat) {
    k >= 3 && FailsAt(id, fetch, k - 2) && FailsAt(id, fetch, k - 1) && FailsAt(id, fetch, k)
  }

  /** How many of the numbers up to `k` failed in a row, ending at `k`. */
  function FailRun(id: nat -> string, fetch: string -> Option<Record>, k: nat): nat {
    if k == 0 then 0
    else if FailsAt(id, fetch, k) then FailRun(id, fetch, k - 1) + 1
    else 0
  }

  /** The ids of numbers `lo` to `hi - 1`, in order. */
  function Ids(id: nat -> string, lo: nat, hi: nat): seq<string>
    requires lo <= hi
    decreases hi - lo
  {
    if lo == hi then [] else [id(lo)] + Ids(id, lo + 1, hi)
  }

  /** The records a section keeps from numbers `lo` to `hi - 1`: each
      successful response, with its question id replaced by the id that
      was requested. */
  function Harvest(id: nat -> string, fetch: string -> Option<Record>, lo: nat, hi: nat): seq<Record>
    requires lo <= hi
    decreases hi - lo
  {
    if lo == hi then []
    else
      var rest := Harvest(id, fetch, lo + 1, hi);
      match fetch(PageUrl(id(lo)))
      case Some(data) => [data.(questionId := id(lo))] + rest
      case None => rest
  }

  lemma {:induction false} IdsAt(id: nat -> string, lo: nat, hi: nat)
    requires lo <= hi
    ensures |Ids(id, lo, hi)| == hi - lo
    ensures forall i :: 0 <= i < hi - lo ==> Ids(id, lo, hi)[i] == id(lo + i)
    decreases hi - lo
  {
    if lo < hi {
      IdsAt(id, lo + 1, hi);
    }
  }

  /** The failure counter reaches three exactly at the third failure in a
      row. */
  lemma FailRunStreak(id: nat -> string, fetch: string -> Option<Record>, k: nat)
    ensures FailRun(id, fetch, k) >= MaxFailures <==> StreakEndsAt(id, fetch, k)
  {
    if k >= 1 && FailsAt(id, fetch, k) && k - 1 >= 1 && FailsAt(id, fetch, k - 1) && k - 2 >= 1 {
      assert FailRun(id, fetch, k) == FailRun(id, fetch, k - 2) + 2;
    }
  }

  /** The rest of a crawl from `num` requests the ids of `num` onwards,
      in order, and at most up to number 80. */
  lemma {:induction false} CrawlFromAttempted(id: nat -> string, fetch: string -> Option<Record>, num: nat, fails: nat)
    requires 1 <= num <= MaxNumber + 1 && fails < MaxFailures
    ensures var o := CrawlFrom(id, fetch, num, fails);
            && num + |o.attempted| <= MaxNumber + 1
            && (num <= MaxNumber ==> |o.attempted| >= 1)
            && o.attempted == Ids(id, num, num + |o.attempted|)
            && (!o.aborted ==> num + |o.attempted| == MaxNumber + 1)
    decreases MaxNumber + 1 - num
  {
    if num <= MaxNumber && (!FailsAt(id, fetch, num) || fails + 1 < MaxFailures) {
      var next := if FailsAt(id, fetch, num) then fails + 1 else 0;
      CrawlFromAttempted(id, fetch, num + 1, next);
      CrawlFromCons(id, fetch, num, fails);
      var n := |CrawlFrom(id, fetch, num + 1, next).attempted|;
      assert Ids(id, num, num + 1 + n) == [id(num)] + Ids(id, num + 1, num + 1 + n);
    }
  }

  /** A crawl that goes on past number `num` has requested `num` and then
      whatever the rest of the crawl requests, and ends as the rest does. */
  lemma CrawlFromCons(id: nat -> string, fetch: string -> Option<Record>, num: nat, fails: nat)
    requires 1 <= num <= MaxNumber && fails < MaxFailures
    requires !FailsAt(id, fetch, num) || fails + 1 < MaxFailures
    ensures var rest := CrawlFrom(id, fetch, num + 1, if FailsAt(id, fetch, num) then fails + 1 else 0);
            && CrawlFrom(id, fetch, num, fails).attempted == [id(num)] + rest.attempted
            && CrawlFrom(id, fetch, num, fails).aborted == rest.aborted
            && CrawlFrom(id, fetch, num, fails).records
               == (if FailsAt(id, fetch, num) then [] else [fetch(PageUrl(id(num))).value.(questionId := id(num))])
                  + rest.records
  {
  }

  /** The rest of a crawl from `num` keeps the harvest of the numbers it
      requests. */
  lemma {:induction false} CrawlFromRecords(id: nat -> string, fetch: string -> Option<Record>, num: nat, fails: nat)
    requires 1 <= num <= MaxNumber + 1 && fails < MaxFailures
    ensures var o := CrawlFrom(id, fetch, num, fails);
            num + |o.attempted| <= MaxNumber + 1 &&
            o.records == Harvest(id, fetch, num, num + |o.attempted|)
    decreases MaxNumber + 1 - num
  {
    CrawlFromAttempted(id, fetch, num, fails);
    if num <= MaxNumber && (!FailsAt(id, fetch, num) || fails + 1 < MaxFailures) {
      var next := if FailsAt(id, fetch, num) then fails + 1 else 0;
      CrawlFromRecords(id, fetch, num + 1, next);
      CrawlFromCons(id, fetch, num, fails);
    }
  }

  /** The rest of a crawl from `num` gives up exactly at the first number
      whose failure run reaches three. */
  predicate StopsAtStreak(id: nat -> string, fetch: string -> Option<Record>, num: nat, fails: nat)
    requires 1 <= num <= MaxNumber + 1 && fails < MaxFailures
  {
    var o := CrawlFrom(id, fetch, num, fails);
    var n := num - 1 + |o.attempted|;
    && (o.aborted <==> FailRun(id, fetch, n) >= MaxFailures)
    && (forall k :: num <= k < n ==> FailRun(id, fetch, k) < MaxFailures)
  }

  /** With `fails` the true failure run before `num`, the rest of a crawl
      gives up exactly at the first number whose failure run reaches
      three. */
  lemma {:induction false} CrawlFromStop(id: nat -> string, fetch: string -> Option<Record>, num: nat, fails: nat)
    requires 1 <= num <= MaxNumber + 1 && fails < MaxFailures
    requires fails == FailRun(id, fetch, num - 1)
    ensures StopsAtStreak(id, fetch, num, fails)
    decreases MaxNumber + 1 - num
  {
    if num <= MaxNumber {
      if FailsAt(id, fetch, num) && fails + 1 >= MaxFailures {
        StopAtThirdFailure(id, fetch, num, fails);
      } else {
        CrawlFromStop(id, fetch, num + 1, if FailsAt(id, fetch, num) then fails + 1 else 0);
        StopAfter(id, fetch, num, fails);
      }
    }
  }

  /** A request that does not complete a streak of three failures leaves
      the stopping point to the rest of the crawl. */
  lemma StopAfter(id: nat -> string, fetch: string -> Option<Record>, num: nat, fails: nat)
    requires 1 <= num <= MaxNumber && fails < MaxFailures && fails == FailRun(id, fetch, num - 1)
    requires !FailsAt(id, fetch, num) || fails + 1 < MaxFailures
    requires StopsAtStreak(id, fetch, num + 1, if FailsAt(id, fetch, num) then fails + 1 else 0)
    ensures StopsAtStreak(id, fetch, num, fails)
  {
    if FailsAt(id, fetch, num) {
      StopAfterFailure(id, fetch, num, fails);
    } else {
      StopAfterSuccess(id, fetch, num, fails);
    }
  }

  /** An answered request resets the run, so the rest of the crawl
      decides where it stops. */
  lemma StopAfterSuccess(id: nat -> string, fetch: string -> Option<Record>, num: nat, fails: nat)
    requires 1 <= num <= MaxNumber && fails < MaxFailures && !FailsAt(id, fetch, num)
    requires StopsAtStreak(id, fetch, num + 1, 0)
    ensures StopsAtStreak(id, fetch, num, fails)
  {
    var o, rest := CrawlFrom(id, fetch, num, fails), CrawlFrom(id, fetch, num + 1, 0);
    assert o.attempted == [id(num)] + rest.attempted && o.aborted == rest.aborted;
    assert FailRun(id, fetch, num) == 0;
  }

  /** A failure short of the third in a row lengthens the run and the
      crawl goes on. */
  lemma StopAfterFailure(id: nat -> string, fetch: string -> Option<Record>, num: nat, fails: nat)
    requires 1 <= num <= MaxNumber && fails + 1 < MaxFailures && FailsAt(id, fetch, num)
    requires fails == FailRun(id, fetch, num - 1)
    requires StopsAtStreak(id, fetch, num + 1, fails + 1)
    ensures StopsAtStreak(id, fetch, num, fails)
  {
    var o, rest := CrawlFrom(id, fetch, num, fails), CrawlFrom(id, fetch, num + 1, fails + 1);
    assert o.attempted == [id(num)] + rest.attempted && o.aborted == rest.aborted;
    assert FailRun(id, fetch, num) == fails + 1;
  }

  /** The third failure in a row stops the crawl at that number. */
  lemma StopAtThirdFailure(id: nat -> string, fetch: string -> Option<Record>, num: nat, fails: nat)
    requires 1 <= num <= MaxNumber && fails + 1 >= MaxFailures && fails < MaxFailures && FailsAt(id, fetch, num)
    requires fails == FailRun(id, fetch, num - 1)
    ensures StopsAtStreak(id, fetch, num, fails)
  {
    GiveUp(id, fetch, num, fails);
    FailRunGrows(id, fetch, num);
    assert num - 1 + |CrawlFrom(id, fetch, num, fails).attempted| == num;
  }

  /** The crawl gives up at a failure that makes the run three long. */
  lemma GiveUp(id: nat -> string, fetch: string -> Option<Record>, num: nat, fails: nat)
    requires 1 <= num <= MaxNumber && fails + 1 >= MaxFailures && fails < MaxFailures && FailsAt(id, fetch, num)
    ensures CrawlFrom(id, fetch, num, fails) == SectionOutcome([id(num)], [], true)
  {
  }

  /** A failure lengthens the run before it by one. */
  lemma FailRunGrows(id: nat -> string, fetch: string -> Option<Record>, num: nat)
    requires 1 <= num && FailsAt(id, fetch, num)
    ensures FailRun(id, fetch, num) == FailRun(id, fetch, num - 1) + 1
  {
  }

  /** The ids a section requests: those of numbers 1 to `n`, in
      increasing order, with 1 <= n <= 80, and all 80 unless it gave up. */
  lemma SectionRequests(id: nat -> string, fetch: string -> Option<Record>)
    ensures var o := CrawlSection(id, fetch);
            && 1 <= |o.attempted| <= MaxNumber
            && (forall i :: 0 <= i < |o.attempted| ==> o.attempted[i] == id(i + 1))
            && (!o.aborted ==> |o.attempted| == MaxNumber)
  {
    CrawlFromAttempted(id, fetch, 1, 0);
    IdsAt(id, 1, 1 + |CrawlSection(id, fetch).attempted|);
  }

  /** The records a section keeps: the answered pages among the numbers
      it requested, in number order, each carrying the requested id. */
  lemma SectionRecords(id: nat -> string, fetch: string -> Option<Record>)
    ensures var o := CrawlSection(id, fetch);
            o.records == Harvest(id, fetch, 1, |o.attempted| + 1)
  {
    CrawlFromRecords(id, fetch, 1, 0);
  }

  /** Where a section stops: it gave up exactly when its last three
      numbers failed, and no earlier three numbers in a row all failed. */
  lemma SectionStops(id: nat -> string, fetch: string -> Option<Record>)
    ensures var o := CrawlSection(id, fetch);
            && (o.aborted <==> StreakEndsAt(id, fetch, |o.attempted|))
            && (forall k :: 1 <= k < |o.attempted| ==> !StreakEndsAt(id, fetch, k))
  {
    CrawlFromStop(id, fetch, 1, 0);
    var n := |CrawlSection(id, fetch).attempted|;
    FailRunStreak(id, fetch, n);
    forall k | 1 <= k < n ensures !StreakEndsAt(id, fetch, k) {
      FailRunStreak(id, fetch, k);
    }
  }

  /** One section's crawl in full. With `n` the number of ids requested:
      ids were requested for exactly the numbers 1 to `n`, in increasing
      order; the crawl gave up exactly when numbers `n - 2`, `n - 1` and
      `n` failed, no earlier three numbers in a row all failed, and
      otherwise all 80 numbers were tried; the records are the successful
      responses, in number order, each carrying the id that was
      requested. */
  lemma CrawlSectionSpec(id: nat -> string, fetch: string -> Option<Record>)
    ensures var o := CrawlSection(id, fetch);
            var n := |o.attempted|;
            && 1 <= n <= MaxNumber
            && (forall i :: 0 <= i < n ==> o.attempted[i] == id(i + 1))
            && o.records == Harvest(id, fetch, 1, n + 1)
            && (o.aborted <==> StreakEndsAt(id, fetch, n))
            && (forall k :: 1 <= k < n ==> !StreakEndsAt(id, fetch, k))
            && (!o.aborted ==> n == MaxNumber)
  {
    SectionRequests(id, fetch);
    SectionRecords(id, fetch);
    SectionStops(id, fetch);
  }

  /** The ids a section requests are `year + sec + str(num)` for
      num = 1, 2, ..., without padding, and no id is requested twice. */
  lemma SectionIdsRequested(year: string, sec: string, fetch: string -> Option<Record>)
    ensures var o := CrawlSection(SectionIds(year, sec), fetch);
            && (forall i :: 0 <= i < |o.attempted| ==> o.attempted[i] == year + sec + NatToString(i + 1))
            && (forall i, j :: 0 <= i < j < |o.attempted| ==> o.attempted[i] != o.attempted[j])
  {
    var id := SectionIds(year, sec);
    SectionRequests(id, fetch);
    var o := CrawlSection(id, fetch);
    forall i, j | 0 <= i < j < |o.attempted| ensures o.attempted[i] != o.attempted[j] {
      if QuestionId(year, sec, i + 1) == QuestionId(year, sec, j + 1) {
        QuestionIdInjective(year, sec, i + 1, j + 1);
      }
    }
  }

  /** Three failures in a row end the section right there: the first
      streak at `k` means exactly `k` ids were requested, and no later
      number is tried. */
  lemma StopsAtFirstStreak(id: nat -> string, fetch: string -> Option<Record>, k: nat)
    requires k <= MaxNumber && StreakEndsAt(id, fetch, k)
    requires forall j :: 1 <= j < k ==> !StreakEndsAt(id, fetch, j)
    ensures CrawlSection(id, fetch).aborted
    ensures |CrawlSection(id, fetch).attempted| == k
  {
    SectionRequests(id, fetch);
    SectionStops(id, fetch);
  }

  /** A kept record has the requested id in place of whatever the page
      said, and otherwise is the response for that id. */
  lemma {:induction false} HarvestMembers(id: nat -> string, fetch: string -> Option<Record>, lo: nat, hi: nat, r: Record)
    requires lo <= hi
    ensures r in Harvest(id, fetch, lo, hi) <==>
      exists k :: lo <= k < hi && fetch(PageUrl(id(k))).Some?
                  && r == fetch(PageUrl(id(k))).value.(questionId := id(k))
    decreases hi - lo
  {
    if lo < hi {
      HarvestMembers(id, fetch, lo + 1, hi, r);
    }
  }

  /** Against a source that answers every request, the i-th record
      carries the id of number lo + i. */
  lemma {:induction false} HarvestAllSucceed(id: nat -> string, fetch: string -> Option<Record>, lo: nat, hi: nat)
    requires lo <= hi
    requires forall k :: lo <= k < hi ==> !FailsAt(id, fetch, k)
    ensures |Harvest(id, fetch, lo, hi)| == hi - lo
    ensures forall i :: 0 <= i < hi - lo ==> Harvest(id, fetch, lo, hi)[i].questionId == id(lo + i)
    decreases hi - lo
  {
    if lo < hi {
      HarvestAllSucceed(id, fetch, lo + 1, hi);
      assert !FailsAt(id, fetch, lo);
      var data := fetch(PageUrl(id(lo))).value;
      assert Harvest(id, fetch, lo, hi) == [data.(questionId := id(lo))] + Harvest(id, fetch, lo + 1, hi);
    }
  }

  /** A section whose every page answers is crawled in full: 80 records,
      the i-th for number i + 1. */
  lemma FullyResponsiveSection(id: nat -> string, fetch: string -> Option<Record>)
    requires forall k :: 1 <= k <= MaxNumber ==> !FailsAt(id, fetch, k)
    ensures var o := CrawlSection(id, fetch);
            && !o.aborted && |o.attempted| == MaxNumber && |o.records| == MaxNumber
            && forall i :: 0 <= i < MaxNumber ==> o.records[i].questionId == id(i + 1)
  {
    SectionRequests(id, fetch);
    SectionRecords(id, fetch);
    SectionStops(id, fetch);
    HarvestAllSucceed(id, fetch, 1, MaxNumber + 1);
  }

  /** Within a section distinct numbers give distinct ids. */
  lemma QuestionIdInjective(year: string, sec: string, a: nat, b: nat)
    requires QuestionId(year, sec, a) == QuestionId(year, sec, b)
    ensures a == b
  {
    var p := |year + sec|;
    assert QuestionId(year, sec, a)[p..] == NatToString(a);
    assert QuestionId(year, sec, b)[p..] == NatToString(b);
    NatToStringInjective(a, b);
  }

  /** Sections do not influence each other: crawling two lists of sections
      one after the other gives the records of each, in that order. */
  lemma {:induction false} AllRecordsAppend(ids: string -> nat -> string, s1: seq<string>, s2: seq<string>, fetch: string -> Option<Record>)
    ensures AllRecords(ids, s1 + s2, fetch) == AllRecords(ids, s1, fetch) + AllRecords(ids, s2, fetch)
    decreases |s2|
  {
    if s2 == [] {
      assert s1 + s2 == s1;
    } else {
      var s2' := s2[..|s2| - 1];
      SplitLast(s1, s2);
      AllRecordsStep(ids, s1 + s2, fetch);
      AllRecordsStep(ids, s2, fetch);
      AllRecordsAppend(ids, s1, s2', fetch);
      AppendAssoc(AllRecords(ids, s1, fetch), AllRecords(ids, s2', fetch), CrawlSection(ids(s2[|s2| - 1]), fetch).records);
    }
  }

  /** Dropping the last section of `s1 + s2` drops the last of `s2`. */
  lemma SplitLast(s1: seq<string>, s2: seq<string>)
    requires s2 != []
    ensures (s1 + s2)[..|s1 + s2| - 1] == s1 + s2[..|s2| - 1]
    ensures (s1 + s2)[|s1 + s2| - 1] == s2[|s2| - 1]
  {
    assert (s1 + s2)[..|s1 + s2| - 1] == s1 + s2[..|s2| - 1];
  }

  /** One unfolding of `AllRecords`. */
  lemma AllRecordsStep(ids: string -> nat -> string, s: seq<string>, fetch: string -> Option<Record>)
    requires s != []
    ensures AllRecords(ids, s, fetch)
            == AllRecords(ids, s[..|s| - 1], fetch) + CrawlSection(ids(s[|s| - 1]), fetch).records
  {
  }

  /** One unfolding of `AllAttempted`. */
  lemma AllAttemptedStep(ids: string -> nat -> string, s: seq<string>, fetch: string -> Option<Record>)
    requires s != []
    ensures AllAttempted(ids, s, fetch)
            == AllAttempted(ids, s[..|s| - 1], fetch) + CrawlSection(ids(s[|s| - 1]), fetch).attempted
  {
  }

  /** The same for the requests made. */
  lemma {:induction false} AllAttemptedAppend(ids: string -> nat -> string, s1: seq<string>, s2: seq<string>, fetch: string -> Option<Record>)
    ensures AllAttempted(ids, s1 + s2, fetch) == AllAttempted(ids, s1, fetch) + AllAttempted(ids, s2, fetch)
    decreases |s2|
  {
    if s2 == [] {
      assert s1 + s2 == s1;
    } else {
      var s2' := s2[..|s2| - 1];
      SplitLast(s1, s2);
      AllAttemptedStep(ids, s1 + s2, fetch);
      AllAttemptedStep(ids, s2, fetch);
      AllAttemptedAppend(ids, s1, s2', fetch);
      AppendAssoc(AllAttempted(ids, s1, fetch), AllAttempted(ids, s2', fetch), CrawlSection(ids(s2[|s2| - 1]), fetch).attempted);
    }
  }

  /** `r` is what section `sec` keeps for its number `num`: the section
      requested `num`, its page answered, and `r` is that response with
      the requested id stamped on it. */
  predicate KeptFor(ids: string -> nat -> string, sec: string, fetch: string -> Option<Record>, num: nat, r: Record) {
    && 1 <= num <= |CrawlSection(ids(sec), fetch).attempted|
    && !FailsAt(ids(sec), fetch, num)
    && r == fetch(PageUrl(ids(sec)(num))).value.(questionId := ids(sec)(num))
  }

  /** A section keeps a record exactly for each number it requested whose
      page answered: that response with the requested id stamped on it. */
  lemma SectionRecordMembers(ids: string -> nat -> string, sec: string, fetch: string -> Option<Record>, r: Record)
    ensures r in CrawlSection(ids(sec), fetch).records <==> exists num: nat :: KeptFor(ids, sec, fetch, num, r)
  {
    var id := ids(sec);
    var n := |CrawlSection(id, fetch).attempted|;
    CrawlFromRecords(id, fetch, 1, 0);
    assert CrawlSection(id, fetch).records == Harvest(id, fetch, 1, n + 1);
    HarvestMembers(id, fetch, 1, n + 1, r);
    if r in CrawlSection(id, fetch).records {
      var k :| 1 <= k < n + 1 && fetch(PageUrl(id(k))).Some? && r == fetch(PageUrl(id(k))).value.(questionId := id(k));
      assert KeptFor(ids, sec, fetch, k, r);
    }
    forall num: nat | KeptFor(ids, sec, fetch, num, r)
      ensures r in CrawlSection(id, fetch).records
    {
      assert 1 <= num < n + 1 && fetch(PageUrl(id(num))).Some? && r == fetch(PageUrl(id(num))).value.(questionId := id(num));
    }
  }

  /** Every collected record is the response to a request the scraper
      made, carrying the id it requested; and every answered request is
      collected. */
  lemma {:induction false} CollectedRecords(ids: string -> nat -> string, sections: seq<string>,
                                            fetch: string -> Option<Record>, r: Record)
    ensures r in AllRecords(ids, sections, fetch) <==>
            exists s, num: nat :: 0 <= s < |sections| && KeptFor(ids, sections[s], fetch, num, r)
    decreases |sections|
  {
    if sections != [] {
      var front, last := sections[..|sections| - 1], sections[|sections| - 1];
      CollectedRecords(ids, front, fetch, r);
      SectionRecordMembers(ids, last, fetch, r);
      AllRecordsStep(ids, sections, fetch);
      assert r in AllRecords(ids, sections, fetch)
             <==> r in AllRecords(ids, front, fetch) || r in CrawlSection(ids(last), fetch).records;
      if exists s, num: nat :: 0 <= s < |sections| && KeptFor(ids, sections[s], fetch, num, r) {
        var s, num: nat :| 0 <= s < |sections| && KeptFor(ids, sections[s], fetch, num, r);
        if s < |front| {
          assert KeptFor(ids, front[s], fetch, num, r);
        } else {
          assert s == |front| && sections[s] == last;
        }
      }
      if r in AllRecords(ids, front, fetch) {
        var s, num: nat :| 0 <= s < |front| && KeptFor(ids, front[s], fetch, num, r);
        assert KeptFor(ids, sections[s], fetch, num, r);
      }
      if r in CrawlSection(ids(last), fetch).records {
        var num: nat :| KeptFor(ids, last, fetch, num, r);
        assert KeptFor(ids, sections[|sections| - 1], fetch, num, r);
      }
    }
  }
}
