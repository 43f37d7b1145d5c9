/**
 * What the edge function throws while checking and scraping a page, and the
 * message each error carries into the history record.
 */
module Failures {

  /** An exception raised between the HEAD request and the end of the scrape. */
  datatype Failure =
    | FetchRejected(message: string)  // a `fetch` call itself rejected (DNS, refused connection, TLS); its own message
    | HeadStatus(status: nat)         // the HEAD answer was not exactly 200
    | HttpNotOk(status: nat)          // the GET answer was not `ok`
    | InvalidScrapeType               // the mode is none of the five
    | NullMatchRead                   // an anchor's `getAttribute` read index 1 of `null`

  /** A run of decimal digits. */
  predicate AllDigits(d: string) {
    forall k | 0 <= k < |d| :: '0' <= d[k] <= '9'
  }

  /** The number a run of decimal digits spells, most significant first. */
  function DigitsValue(d: string): nat
    requires AllDigits(d)
  {
    if d == [] then 0 else 10 * DigitsValue(d[..|d| - 1]) + (d[|d| - 1] as int - '0' as int)
  }

  /** The decimal digits of `n`, as a template literal prints a number: they
      spell `n`, with no leading zero unless `n` is zero. */
  function NatToString(n: nat): (r: string)
    ensures |r| > 0 && AllDigits(r)
    ensures DigitsValue(r) == n
    ensures r[0] == '0' ==> n == 0
  {
    var digit := ['0' + (n % 10) as char];
    if n < 10 then digit
    else
      var r := NatToString(n / 10) + digit;
      assert r[..|r| - 1] == NatToString(n / 10);
      r
  }

  /** `error.message` of each failure. The null read is a `TypeError` whose text
      is that of the V8 engine under Deno. */
  function Message(f: Failure): string {
    match f
    case FetchRejected(message) => message
    case HeadStatus(status) => "Website returned status code " + NatToString(status)
    case HttpNotOk(status) => "HTTP " + NatToString(status) + ": Unable to fetch the webpage"
    case InvalidScrapeType => "Invalid scrape type"
    case NullMatchRead => "Cannot read properties of null (reading '1')"
  }

  /** The first letter of a message the function writes itself. */
  function Initial(f: Failure): char {
    match f
    case FetchRejected(_) => '?'
    case HeadStatus(_) => 'W'
    case HttpNotOk(_) => 'H'
    case InvalidScrapeType => 'I'
    case NullMatchRead => 'C'
  }

  /** Different failures the function raises itself never share a message:
      the recorded message tells the kind and, for the two status failures,
      the status apart. */
  lemma OwnMessagesTellFailuresApart(f: Failure, g: Failure)
    requires !f.FetchRejected? && !g.FetchRejected? && f != g
    ensures Message(f) != Message(g)
  {
    if Initial(f) != Initial(g) {
      MessageStartsWithInitial(f);
      MessageStartsWithInitial(g);
    } else if f.HeadStatus? && Message(f) == Message(g) {
      SameFrameSameContent("Website returned status code ", NatToString(f.status), NatToString(g.status), "");
    } else if f.HttpNotOk? && Message(f) == Message(g) {
      SameFrameSameContent("HTTP ", NatToString(f.status), NatToString(g.status), ": Unable to fetch the webpage");
    }
  }

  /** Two texts framed by the same prefix and suffix are equal when the
      framed texts are. */
  lemma SameFrameSameContent(prefix: string, a: string, b: string, suffix: string)
    requires prefix + a + suffix == prefix + b + suffix
    ensures a == b
  {
    var whole := prefix + a + suffix;
    assert whole[|prefix|..|prefix| + |a|] == a;
  }

  /** Each message the function writes itself starts with its kind's letter. */
  lemma MessageStartsWithInitial(f: Failure)
    requires !f.FetchRejected?
    ensures |Message(f)| > 0 && Message(f)[0] == Initial(f)
  {
    match f
    case HeadStatus(status) =>
      assert Message(f) == "Website returned status code " + NatToString(status);
    case HttpNotOk(status) =>
      assert Message(f) == "HTTP " + NatToString(status) + ": Unable to fetch the webpage";
    case InvalidScrapeType =>
    case NullMatchRead =>
      assert Message(f)[0] == "Cannot read properties of null (reading '1')"[0];
  }
}
