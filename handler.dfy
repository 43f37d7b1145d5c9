/**
 * The outcome decision of the web-scraper edge function's request handler
 * (supabase/functions/web-scraper/index.ts:184-212): the missing-field
 * check, the HEAD probe of the URL, and the call to `scrapeWebsite`, which
 * together decide the status, status code, result and error message that
 * the handler records. The two fetches are parameters.
 */
module Handler {
  import opened Wrappers
  import opened Failures
  import opened Scraper

  /** The two fields of the request body; a field is absent when the JSON
      body does not carry it. */
  datatype Request = Request(url: Option<string>, scrapeType: Option<string>)

  /** The outcome of the HEAD probe: a response status, or a rejected promise
      with the error's message. */
  datatype HeadResult = HeadResponse(status: nat) | HeadFailed(message: string)

  /** The status recorded for a run. */
  datatype RunStatus = Success | Error

  /** What the handler decides: the 400 reply for a request without both
      fields, or the values it records and returns for a scrape. */
  datatype Reply =
    | MissingFields
    | Recorded(status: RunStatus, statusCode: nat, resultData: Option<ScrapeData>, errorMessage: Option<string>)

  /** A field that is absent or the empty string is falsy. */
  predicate Present(field: Option<string>) {
    field.Some? && field.value != []
  }

  /** The reply the handler decides on, given the outcomes of its fetches. */
  function Outcome(req: Request, head: HeadResult, get: GetResult): Reply {
    if !Present(req.url) || !Present(req.scrapeType) then MissingFields
    else
      match head
      case HeadFailed(message) => Recorded(Error, 0, None, Some(message))
      case HeadResponse(code) =>
        if code != 200 then Recorded(Error, code, None, Some(Message(HeadStatus(code))))
        else
          match ScrapeResult(get, req.scrapeType.value)
          case Ok(data) => Recorded(Success, 200, Some(data), None)
          case Err(failure) => Recorded(Error, 200, None, Some(Message(failure)))
  }

  /** The handler's steps: check the fields, probe with HEAD, refuse any
      status other than 200, then scrape; any error thrown on the way is
      caught and turned into an error record that keeps the status code
      seen so far. */
  method HandleScrape(req: Request, head: HeadResult, get: GetResult) returns (reply: Reply)
    ensures reply == Outcome(req, head, get)
  {
    if !Present(req.url) || !Present(req.scrapeType) {
      return MissingFields;
    }
    var statusCode: nat := 0;
    var resultData: Option<ScrapeData> := None;
    var status := Success;
    var errorMessage: Option<string> := None;
    var thrown: Option<Failure> := None;
    match head {
      case HeadFailed(message) =>
        thrown := Some(FetchRejected(message));
      case HeadResponse(code) =>
        statusCode := code;
        if statusCode != 200 {
          thrown := Some(HeadStatus(statusCode));
        } else {
          var scraped := ScrapeWebsite(get, req.scrapeType.value);
          match scraped {
            case Ok(data) => resultData := Some(data);
            case Err(failure) => thrown := Some(failure);
          }
        }
    }
    if thrown.Some? {
      status := Error;
      errorMessage := Some(Message(thrown.value));
    }
    reply := Recorded(status, statusCode, resultData, errorMessage);
  }

  /** A run is recorded as a success exactly when HEAD answered 200 and the
      scrape resolved; a success carries data and no message, an error a
      message and no data. */
  lemma SuccessIffHeadOkAndScrapeResolves(req: Request, head: HeadResult, get: GetResult)
    requires Present(req.url) && Present(req.scrapeType)
    ensures Outcome(req, head, get).Recorded?
    ensures Outcome(req, head, get).status == Success
      <==> head == HeadResponse(200) && ScrapeResult(get, req.scrapeType.value).Ok?
    ensures Outcome(req, head, get).status == Success
      <==> Outcome(req, head, get).resultData.Some?
    ensures Outcome(req, head, get).status == Error
      <==> Outcome(req, head, get).errorMessage.Some?
  {
  }

  /** The recorded status code is the HEAD status, or 0 when HEAD itself
      failed. */
  lemma StatusCodeIsHeadStatus(req: Request, head: HeadResult, get: GetResult)
    requires Present(req.url) && Present(req.scrapeType)
    ensures Outcome(req, head, get).statusCode == (if head.HeadFailed? then 0 else head.status)
  {
  }

  /** The page fetch matters only after a 200 HEAD: otherwise the outcome is
      the same whatever the page fetch would have returned. */
  lemma PageFetchIgnoredUnlessHeadOk(req: Request, head: HeadResult, get1: GetResult, get2: GetResult)
    requires head != HeadResponse(200)
    ensures Outcome(req, head, get1) == Outcome(req, head, get2)
  {
  }

  /** An unknown scrape type is reported only after both fetches succeed: a
      failed HEAD, a status other than 200 or a failed page fetch is
      reported instead. (A rejected page fetch whose own message reads
      exactly like the unknown-type message could not be told apart.) */
  lemma UnknownScrapeTypeReportedLast(url: string, scrapeType: string, head: HeadResult, get: GetResult)
    requires url != [] && scrapeType != [] && scrapeType !in ScrapeTypes
    requires get.GetFailed? ==> get.message != Message(InvalidScrapeType)
    ensures Outcome(Request(Some(url), Some(scrapeType)), head, get)
        == Recorded(Error, 200, None, Some(Message(InvalidScrapeType)))
      <==> head == HeadResponse(200) && get.GetResponse? && IsOk(get.status)
  {
  }
}
