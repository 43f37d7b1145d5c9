/**
 * `scrapeWebsite` of the web-scraper edge function
 * (supabase/functions/web-scraper/index.ts:101-165): the page fetch, its
 * status check, and the dispatch on the scrape type over the parsed page.
 * The fetch itself is not modelled: its outcome is a parameter.
 */
module Scraper {
  import opened Wrappers
  import opened JsText
  import opened Patterns
  import opened Failures
  import opened DomParser

  /** One scraped quote. */
  datatype QuoteRecord = QuoteRecord(quote: string, author: string, tags: seq<string>)

  /** What a successful scrape returns, by scrape type. */
  datatype ScrapeData =
    | Markup(html: string)
    | PlainText(text: string)
    | HeadingList(headings: seq<string>)
    | LinkList(hrefs: seq<string>)
    | QuoteList(quotes: seq<QuoteRecord>)

  /** The outcome of the page fetch: a response with its status and body, or
      a rejected promise with the error's message. */
  datatype GetResult = GetResponse(status: nat, body: string) | GetFailed(message: string)

  /** `response.ok`: a status in the 2xx range. */
  predicate IsOk(status: nat) {
    200 <= status <= 299
  }

  /** The scrape types `scrapeWebsite` accepts. */
  const ScrapeTypes: set<string> := {"html", "text", "headings", "links", "quotes"}

  // ---------------------------------------------------------------------------
  // Headings

  /** Every text trimmed, in order. */
  function TrimAll(ts: seq<string>): (r: seq<string>)
    ensures |r| == |ts|
  {
    if ts == [] then [] else [Trim(ts[0])] + TrimAll(ts[1..])
  }

  /** The k-th text of the result is the k-th text trimmed. */
  lemma {:induction false} TrimAllAt(ts: seq<string>)
    ensures forall k | 0 <= k < |ts| :: TrimAll(ts)[k] == Trim(ts[k])
  {
    if ts != [] {
      TrimAllAt(ts[1..]);
      forall k | 0 < k < |ts| ensures TrimAll(ts)[k] == Trim(ts[k]) {
        assert ts[1..][k - 1] == ts[k];
      }
    }
  }

  /** The heading texts the selector reports: every `h1`, then every `h2`. */
  function Headings(html: string): seq<string> {
    MapNonEmptyCaptures(HeadingText, Matches(Heading1, html))
      + MapNonEmptyCaptures(HeadingText, Matches(Heading2, html))
  }

  /** What the headings mode makes of the selected texts: each trimmed, the
      empty ones dropped. */
  function HeadingsView(hs: seq<string>): seq<string> {
    NonEmptyTexts(TrimAll(hs))
  }

  /** Texts that are already trimmed and non-empty pass the headings view
      unchanged. */
  lemma {:induction false} HeadingsViewKeepsCleanTexts(hs: seq<string>)
    requires forall t | t in hs :: t != [] && Trim(t) == t
    ensures HeadingsView(hs) == hs
  {
    if hs != [] {
      assert hs[0] in hs;
      assert forall t | t in hs[1..] :: t in hs;
      HeadingsViewKeepsCleanTexts(hs[1..]);
    }
  }

  /** Every heading text the selector reports is non-empty, trimmed and free
      of `<…>` tokens. */
  lemma {:induction false} SelectedHeadingsAreClean(ms: seq<Match>)
    ensures forall t | t in MapNonEmptyCaptures(HeadingText, ms) ::
      t != [] && Trim(t) == t && NoTagPair(t)
  {
    if ms != [] {
      HeadingTextIsClean(ms[0].capture);
      SelectedHeadingsAreClean(ms[1..]);
    }
  }

  // ---------------------------------------------------------------------------
  // Links

  /** `Array.from(links).map(a => a.getAttribute('href'))`: every element's
      attribute in order, or the error of the first read that fails. */
  function Hrefs(elements: seq<AnchorElement>): (r: Result<seq<string>, Failure>)
    reads set e | e in elements :: e.binding
    decreases |elements|
  {
    if elements == [] then Ok([])
    else
      match Hrefs(elements[..|elements| - 1])
      case Err(f) => Err(f)
      case Ok(hs) =>
        match GetAttribute(elements[|elements| - 1])
        case Err(f) => Err(f)
        case Ok(h) => Ok(hs + [h])
  }

  /** The attribute reads fail exactly when some element's binding is
      `null`, and then with the `TypeError` of indexing `null`. */
  lemma {:induction false} HrefsFailIffNullBinding(elements: seq<AnchorElement>)
    ensures Hrefs(elements).Err? <==> exists k | 0 <= k < |elements| :: elements[k].binding.current.None?
    ensures Hrefs(elements).Err? ==> Hrefs(elements).error == NullMatchRead
    decreases |elements|
  {
    if elements != [] {
      var n := |elements| - 1;
      var init := elements[..n];
      HrefsFailIffNullBinding(init);
      forall k | 0 <= k < n ensures init[k] == elements[k] { }
    }
  }

  /** When every element holds its own match, the reads return the matches'
      captures, in order. */
  lemma {:induction false} HrefsOfOwnBindings(elements: seq<AnchorElement>, ms: seq<Match>)
    requires |elements| == |ms|
    requires forall k | 0 <= k < |elements| :: elements[k].binding.current == Some(ms[k])
    ensures Hrefs(elements) == Ok(MapCaptures(Verbatim, ms))
    decreases |elements|
  {
    MapCapturesAt(Verbatim, ms);
    if elements != [] {
      var n := |elements| - 1;
      HrefsOfOwnBindings(elements[..n], ms[..n]);
      MapCapturesAt(Verbatim, ms[..n]);
      assert MapCaptures(Verbatim, ms[..n]) + [ms[n].capture] == MapCaptures(Verbatim, ms);
    }
  }

  /** The links mode over the selected anchor elements: read every
      attribute, then drop the empty ones. */
  method LinksView(elements: seq<AnchorElement>) returns (r: Result<seq<string>, Failure>)
    ensures r == match Hrefs(elements)
      case Err(f) => Err(f)
      case Ok(hs) => Ok(NonEmptyTexts(hs))
  {
    var hrefs: seq<string> := [];
    var i := 0;
    while i < |elements|
      invariant 0 <= i <= |elements|
      invariant Hrefs(elements[..i]) == Ok(hrefs)
    {
      assert elements[..i + 1][..i] == elements[..i];
      var href := GetAttribute(elements[i]);
      if href.Err? {
        HrefsFailIffNullBinding(elements[..i + 1]);
        HrefsFailIffNullBinding(elements);
        assert elements[..i + 1][i] == elements[i];
        return Err(href.error);
      }
      hrefs := hrefs + [href.value];
      i := i + 1;
    }
    assert elements[..i] == elements;
    r := Ok(NonEmptyTexts(hrefs));
  }

  /** The links mode as the function is written: an empty list when no
      anchor matched, otherwise the `TypeError` of reading `null`. */
  function LinksAsWritten(html: string): Result<seq<string>, Failure> {
    if Matches(Anchor, html) == [] then Ok([]) else Err(NullMatchRead)
  }

  /** The links mode as evidently intended: the non-empty `href` values of
      the anchors, in document order. */
  function LinksIntended(html: string): seq<string> {
    NonEmptyTexts(MapCaptures(Verbatim, Matches(Anchor, html)))
  }

  /** The links mode as written: every element reads the one binding the
      selector loop left `null`. */
  method ScrapeLinks(html: string) returns (r: Result<seq<string>, Failure>)
    ensures r == LinksAsWritten(html)
  {
    var elements, binding := SelectAnchors(html);
    HrefsFailIffNullBinding(elements);
    if elements != [] {
      assert elements[0].binding.current.None?;
    }
    r := LinksView(elements);
  }

  /** The links mode with a binding per element. */
  method ScrapeLinksIntended(html: string) returns (r: Result<seq<string>, Failure>)
    ensures r == Ok(LinksIntended(html))
  {
    var elements := SelectAnchorsIntended(html);
    HrefsOfOwnBindings(elements, Matches(Anchor, html));
    r := LinksView(elements);
  }

  /** As written, the links mode fails for every page in which the anchor
      expression matches at least once, and otherwise returns no link. */
  lemma LinksFailWheneverAnAnchorMatches(html: string)
    ensures LinksAsWritten(html).Err? <==> exists k | 0 <= k <= |html| :: MatchAt(Anchor, html, k).Some?
    ensures LinksAsWritten(html).Ok? ==> LinksAsWritten(html).value == []
  {
    AnchorsFoundIffSomeMatch(html);
  }

  /** As intended, every non-empty `href` capture is reported, and nothing
      else. */
  lemma LinksIntendedReportsEveryHref(html: string)
    ensures forall k | 0 <= k < |Matches(Anchor, html)| && Matches(Anchor, html)[k].capture != [] ::
      Matches(Anchor, html)[k].capture in LinksIntended(html)
    ensures forall h | h in LinksIntended(html) ::
      h != [] && exists k | 0 <= k < |Matches(Anchor, html)| :: Matches(Anchor, html)[k].capture == h
  {
    var ms := Matches(Anchor, html);
    MapCapturesAt(Verbatim, ms);
    forall k | 0 <= k < |ms| ensures MapCaptures(Verbatim, ms)[k] in MapCaptures(Verbatim, ms) { }
  }

  /** The correction changes nothing on the pages where the written links
      mode succeeds: there it returns what the corrected mode returns. */
  lemma CorrectionAgreesWhereWrittenSucceeds(html: string)
    ensures LinksAsWritten(html).Ok? ==> LinksAsWritten(html) == Ok(LinksIntended(html))
  {
  }

  /** A page holding one anchor, `<a href="x">`. */
  const OneAnchor := "<a href=\"x\">"

  /** The anchor expression matches that page at its start, capturing `x`. */
  lemma OneAnchorMatches()
    ensures MatchAt(Anchor, OneAnchor, 0) == Some(Match(0, "x", 12))
  {
    var s := OneAnchor;
    assert At(s, 3, HrefOpen, true);
    assert FindChar(s, '"', 9) == Some(10);
    assert FindChar(s, '>', 11) == Some(11);
    assert FindChar(s, '>', 2) == Some(11);
    assert s[9..10] == "x";
    assert AnchorHrefAt(s, 0, 3) == Some(Match(0, "x", 12));
    forall h | 3 < h <= 11
      ensures AnchorHrefAt(s, 0, h).None?
    {
      assert Lower(s[h]) != HrefOpen[0];
    }
    AnchorTakesLastHref(s, 0, 11);
  }

  /** On that page the written links mode throws, where the corrected one
      lists `x`. */
  lemma OneAnchorShowsTheDefect()
    ensures LinksAsWritten(OneAnchor) == Err(NullMatchRead)
    ensures LinksIntended(OneAnchor) == ["x"]
  {
    OneAnchorMatches();
    assert MatchesFrom(Expr(Anchor), OneAnchor, 12) == [];
    assert Matches(Anchor, OneAnchor) == [Match(0, "x", 12)];
    assert MapCaptures(Verbatim, [Match(0, "x", 12)]) == ["x"];
  }

  // ---------------------------------------------------------------------------
  // Quotes

  /** The author of the i-th quote: the i-th author's trimmed text, or
      `Unknown` when there is none or it is empty. */
  function AuthorAt(authors: seq<string>, i: nat): (r: string)
    ensures r != []
  {
    if i < |authors| && Trim(authors[i]) != [] then Trim(authors[i]) else "Unknown"
  }

  /** The tags of the i-th quote: the trimmed texts of the i-th container's
      tag links, or none when there is no i-th container. */
  function TagsAt(containers: seq<seq<string>>, i: nat): seq<string> {
    if i < |containers| then TrimAll(containers[i]) else []
  }

  /** The record of the i-th quote. */
  function QuoteRecordAt(quotes: seq<string>, authors: seq<string>, containers: seq<seq<string>>, i: nat): QuoteRecord
    requires i < |quotes|
  {
    QuoteRecord(Trim(quotes[i]), AuthorAt(authors, i), TagsAt(containers, i))
  }

  /** The quote records the quotes mode builds: one per quote text, paired by
      position with the author and tag container of the same index. */
  function QuoteRecords(quotes: seq<string>, authors: seq<string>, containers: seq<seq<string>>): seq<QuoteRecord> {
    seq(|quotes|, k requires 0 <= k < |quotes| => QuoteRecordAt(quotes, authors, containers, k))
  }

  /** The body of the quotes loop: the record of the i-th quote, with the
      `Unknown` author and the empty tag list when there is nothing at `i`. */
  method BuildRecord(quotes: seq<string>, authors: seq<string>, containers: seq<seq<string>>, i: nat)
    returns (record: QuoteRecord)
    requires i < |quotes|
    ensures record == QuoteRecordAt(quotes, authors, containers, i)
  {
    var quoteText := Trim(quotes[i]);
    var authorText := if i < |authors| then Trim(authors[i]) else [];
    if authorText == [] {
      authorText := "Unknown";
    }
    var tags := if i < |containers| then TrimAll(containers[i]) else [];
    record := QuoteRecord(quoteText, authorText, tags);
  }

  /** The loop of the quotes mode over the three selections. */
  method AssembleQuotes(quotes: seq<string>, authors: seq<string>, containers: seq<seq<string>>)
    returns (records: seq<QuoteRecord>)
    ensures records == QuoteRecords(quotes, authors, containers)
  {
    records := [];
    var i := 0;
    while i < |quotes|
      invariant 0 <= i <= |quotes|
      invariant records == QuoteRecords(quotes, authors, containers)[..i]
    {
      var record := BuildRecord(quotes, authors, containers, i);
      ghost var all := QuoteRecords(quotes, authors, containers);
      assert all[..i + 1] == all[..i] + [all[i]];
      records := records + [record];
      i := i + 1;
    }
    assert QuoteRecords(quotes, authors, containers)[..i] == QuoteRecords(quotes, authors, containers);
  }

  /** The quote records of a page. */
  function Quotes(html: string): seq<QuoteRecord> {
    QuoteRecords(
      MapCaptures(DecodeEntities, Matches(QuoteSpan, html)),
      MapCaptures(Verbatim, Matches(AuthorSmall, html)),
      MapCaptures(TagTexts, Matches(TagsBlock, html)))
  }

  lemma UnknownIsTrimmed()
    ensures Trim("Unknown") == "Unknown"
  {
    assert TrimStart("Unknown") == "Unknown";
    assert TrimEnd("Unknown") == "Unknown";
  }

  /** The record of the i-th quote: quote and author trimmed, the author
      never empty, `Unknown` past the last author, no tags past the last
      container, and the k-th tag the k-th tag link of the i-th container,
      trimmed. */
  lemma QuoteRecordAtShape(quotes: seq<string>, authors: seq<string>, containers: seq<seq<string>>, i: nat)
    requires i < |quotes|
    ensures var r := QuoteRecordAt(quotes, authors, containers, i);
      && r.quote == Trim(quotes[i])
      && Trim(r.quote) == r.quote && Trim(r.author) == r.author && r.author != []
      && (i < |authors| && Trim(authors[i]) != [] ==> r.author == Trim(authors[i]))
      && (i < |authors| && Trim(authors[i]) == [] ==> r.author == "Unknown")
      && (|authors| <= i ==> r.author == "Unknown")
      && (|containers| <= i ==> r.tags == [])
      && (i < |containers| ==> |r.tags| == |containers[i]|)
      && (i < |containers| ==> forall k | 0 <= k < |r.tags| :: r.tags[k] == Trim(containers[i][k]))
  {
    if i < |containers| {
      TrimAllAt(containers[i]);
    }
    UnknownIsTrimmed();
    TrimIdempotent(quotes[i]);
    if i < |authors| {
      TrimIdempotent(authors[i]);
    }
  }

  /** One record per quote span, the i-th built from the i-th quote text,
      the i-th author and the i-th tag container: the three lists are paired
      by position, not by the quote each author or container belongs to. */
  lemma QuoteRecordsArePairedByPosition(quotes: seq<string>, authors: seq<string>, containers: seq<seq<string>>)
    ensures |QuoteRecords(quotes, authors, containers)| == |quotes|
    ensures forall i | 0 <= i < |quotes| ::
      QuoteRecords(quotes, authors, containers)[i] == QuoteRecordAt(quotes, authors, containers, i)
    ensures forall i | 0 <= i < |quotes| :: QuoteRecords(quotes, authors, containers)[i].quote == Trim(quotes[i])
    ensures forall i | 0 <= i < |quotes| && i < |authors| && Trim(authors[i]) != [] ::
      QuoteRecords(quotes, authors, containers)[i].author == Trim(authors[i])
    ensures forall i | 0 <= i < |quotes| && (|authors| <= i || Trim(authors[i]) == []) ::
      QuoteRecords(quotes, authors, containers)[i].author == "Unknown"
    ensures forall i | 0 <= i < |quotes| && i < |containers| ::
      |QuoteRecords(quotes, authors, containers)[i].tags| == |containers[i]|
    ensures forall i, k | 0 <= i < |quotes| && i < |containers| && 0 <= k < |containers[i]| ::
      QuoteRecords(quotes, authors, containers)[i].tags[k] == Trim(containers[i][k])
    ensures forall i | 0 <= i < |quotes| && |containers| <= i :: QuoteRecords(quotes, authors, containers)[i].tags == []
    ensures forall i | 0 <= i < |quotes| :: QuoteRecords(quotes, authors, containers)[i].author != []
  {
    var records := QuoteRecords(quotes, authors, containers);
    forall i | 0 <= i < |quotes|
      ensures var r := records[i];
        && (i < |containers| ==> |r.tags| == |containers[i]|)
        && (i < |containers| ==> forall k | 0 <= k < |containers[i]| :: r.tags[k] == Trim(containers[i][k]))
    {
      QuoteRecordAtShape(quotes, authors, containers, i);
    }
  }

  // ---------------------------------------------------------------------------
  // The dispatch

  /** What `scrapeWebsite` resolves to, or the error it throws. */
  function ScrapeResult(get: GetResult, scrapeType: string): Result<ScrapeData, Failure> {
    match get
    case GetFailed(message) => Err(FetchRejected(message))
    case GetResponse(status, html) =>
      if !IsOk(status) then Err(HttpNotOk(status))
      else if scrapeType == "html" then Ok(Markup(html))
      else if scrapeType == "text" then Ok(PlainText(BodyText(html)))
      else if scrapeType == "headings" then Ok(HeadingList(HeadingsView(Headings(html))))
      else if scrapeType == "links" then
        match LinksAsWritten(html)
        case Err(f) => Err(f)
        case Ok(hrefs) => Ok(LinkList(hrefs))
      else if scrapeType == "quotes" then Ok(QuoteList(Quotes(html)))
      else Err(InvalidScrapeType)
  }

  /** `scrapeWebsite(url, scrapeType)`, given the outcome of its fetch. */
  method ScrapeWebsite(get: GetResult, scrapeType: string) returns (r: Result<ScrapeData, Failure>)
    ensures r == ScrapeResult(get, scrapeType)
  {
    if get.GetFailed? {
      return Err(FetchRejected(get.message));
    }
    if !IsOk(get.status) {
      return Err(HttpNotOk(get.status));
    }
    var html := get.body;
    if scrapeType == "html" {
      r := Ok(Markup(html));
    } else if scrapeType == "text" {
      r := Ok(PlainText(BodyText(html)));
    } else if scrapeType == "headings" {
      var headings := SelectHeadings(html);
      r := Ok(HeadingList(HeadingsView(headings)));
    } else if scrapeType == "links" {
      var hrefs := ScrapeLinks(html);
      if hrefs.Err? {
        return Err(hrefs.error);
      }
      r := Ok(LinkList(hrefs.value));
    } else if scrapeType == "quotes" {
      var quotes := SelectQuoteTexts(html);
      var authors := SelectAuthorTexts(html);
      var containers := SelectTagContainers(html);
      var records := AssembleQuotes(quotes, authors, containers);
      r := Ok(QuoteList(records));
    } else {
      r := Err(InvalidScrapeType);
    }
  }

  // ---------------------------------------------------------------------------
  // Properties of the dispatch

  /** A failed or non-2xx fetch decides the outcome before the scrape type is
      looked at. */
  lemma FetchFailureWinsOverScrapeType(get: GetResult, t1: string, t2: string)
    requires get.GetFailed? || !IsOk(get.status)
    ensures ScrapeResult(get, t1).Err? && ScrapeResult(get, t1) == ScrapeResult(get, t2)
  {
  }

  /** After a 2xx fetch, the scrape type is refused exactly when it is not one
      of the five modes. */
  lemma InvalidScrapeTypeIffUnknown(status: nat, html: string, scrapeType: string)
    requires IsOk(status)
    ensures ScrapeResult(GetResponse(status, html), scrapeType) == Err(InvalidScrapeType)
      <==> scrapeType !in ScrapeTypes
  {
  }

  /** The html mode returns the page as fetched, the text mode its normalised
      body text. */
  lemma MarkupAndTextModes(status: nat, html: string)
    requires IsOk(status)
    ensures ScrapeResult(GetResponse(status, html), "html") == Ok(Markup(html))
    ensures ScrapeResult(GetResponse(status, html), "text").Ok?
    ensures Normalised(ScrapeResult(GetResponse(status, html), "text").value.text)
  {
    TextContentNormalised(html);
  }

  /** The headings mode returns the selector's texts unchanged: the `h1`
      texts, then the `h2` texts, each non-empty, trimmed and tag-free. */
  lemma HeadingsModeReturnsSelection(status: nat, html: string)
    requires IsOk(status)
    ensures ScrapeResult(GetResponse(status, html), "headings") == Ok(HeadingList(Headings(html)))
    ensures forall t | t in Headings(html) :: t != [] && Trim(t) == t && NoTagPair(t)
  {
    SelectedHeadingsAreClean(Matches(Heading1, html));
    SelectedHeadingsAreClean(Matches(Heading2, html));
    HeadingsViewKeepsCleanTexts(Headings(html));
  }

  /** After a 2xx fetch the links mode fails exactly when some anchor
      matched, and then with the `TypeError` of reading `null`; otherwise
      it returns no link at all. */
  lemma LinksModeFailsIffAnchorFound(status: nat, html: string)
    requires IsOk(status)
    ensures var r := ScrapeResult(GetResponse(status, html), "links");
      && (r.Err? <==> exists k | 0 <= k <= |html| :: MatchAt(Anchor, html, k).Some?)
      && (r.Err? ==> r.error == NullMatchRead)
      && (r.Ok? ==> r.value == LinkList([]))
  {
    LinksFailWheneverAnAnchorMatches(html);
  }

  /** The quotes mode returns one record per quote span. */
  lemma QuotesModeCountsQuoteSpans(status: nat, html: string)
    requires IsOk(status)
    ensures ScrapeResult(GetResponse(status, html), "quotes").Ok?
    ensures |ScrapeResult(GetResponse(status, html), "quotes").value.quotes| == |Matches(QuoteSpan, html)|
  {
    assert ScrapeResult(GetResponse(status, html), "quotes") == Ok(QuoteList(Quotes(html)));
  }
}
