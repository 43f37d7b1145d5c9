/**
 * The regular expressions of the web-scraper edge function
 * (supabase/functions/web-scraper/index.ts), each written out as a matcher
 * that says whether, and how, the expression matches at one position of the
 * page text; and the two ways the function drives them: a global `exec`
 * loop (leftmost match, then resume at its end) and a global `replace`.
 * No general regular-expression engine is modelled: every matcher follows
 * the backtracking of its one expression.
 */
module Patterns {
  import opened Wrappers
  import opened JsText

  /** One successful `exec`: where the match starts, its first capture group
      (empty for expressions without one), and where it ends, which is the
      `lastIndex` the next `exec` starts from. */
  datatype Match = Match(start: nat, capture: string, end: nat)

  /** The expressions of the edge function, by what they recognise. */
  datatype Pattern =
    | QuoteSpan      // quote text span, content may span lines (index.ts:33)
    | AuthorSmall    // author element, content may span lines (index.ts:41)
    | TagsBlock      // tag container block, content may span lines (index.ts:49)
    | TagLink        // one tag link inside a container, content on one line (index.ts:53)
    | Anchor         // a tag whose name starts with `a` and that carries `href="…"`, any case (index.ts:66)
    | Heading1       // `<h1…>…</h1>`, content may span lines (index.ts:74)
    | Heading2       // `<h2…>…</h2>`, content may span lines (index.ts:75)
    | ScriptBlock    // a script element, any case (index.ts:25)
    | StyleBlock     // a style element, any case (index.ts:26)
    | TagToken       // any `<…>` token (index.ts:78, 82, 92)
    | Literal(text: string)  // a fixed entity text (index.ts:36)

  const QuoteOpen := "<span class=\"text\" itemprop=\"text\">"
  const QuoteClose := "</span>"
  const AuthorOpen := "<small class=\"author\" itemprop=\"author\">"
  const AuthorClose := "</small>"
  const TagsOpen := "<div class=\"tags\">"
  const TagsClose := "</div>"
  const TagLinkOpen := "<a class=\"tag\" href=\""
  const TagLinkClose := "</a>"
  const HrefOpen := "href=\""

  /** An element with a fixed opening tag whose lazy content may span lines:
      the capture runs from the end of `open` to the FIRST `close` after it. */
  function LazyElementAt(s: string, i: nat, open: string, close: string): (r: Option<Match>)
    requires i <= |s| && |open| > 0
    ensures r.Some? ==>
      var j := r.value.end - |close|;
      r.value.start == i && At(s, i, open, false) && i + |open| <= j && At(s, j, close, false)
      && r.value.capture == s[i + |open|..j]
      && forall k | i + |open| <= k < j :: !At(s, k, close, false)
    ensures r.None? ==> !At(s, i, open, false) || forall k | i + |open| <= k <= |s| :: !At(s, k, close, false)
  {
    if !At(s, i, open, false) then None
    else match FindFrom(s, close, i + |open|, false)
      case None => None
      case Some(j) => Some(Match(i, s[i + |open|..j], j + |close|))
  }

  /** The first `lit` at or after `p` that comes before any line terminator:
      how a lazy `(.*?)` without the `s` flag finds its end. */
  function FindOnLine(s: string, lit: string, p: nat): (r: Option<nat>)
    requires p <= |s|
    decreases |s| - p
    ensures r.Some? ==> p <= r.value && At(s, r.value, lit, false)
    ensures r.Some? ==> forall k | p <= k < r.value :: !At(s, k, lit, false) && !IsLineTerminator(s[k])
    ensures r.None? ==> forall k | SameLine(s, p, k) :: !At(s, k, lit, false)
  {
    if At(s, p, lit, false) then Some(p)
    else if p == |s| || IsLineTerminator(s[p]) then None
    else FindOnLine(s, lit, p + 1)
  }

  /** A tag link inside a tag container: the fixed opening up to the `href`
      value, the greedy `[^"]*` runs to the first `"`, which must be followed
      by `>`; the lazy content cannot cross a line terminator. What a match
      holds is stated by `TagLinkAtShape`, when there is none by
      `TagLinkAtFails`. */
  function TagLinkAt(s: string, i: nat): (r: Option<Match>)
    requires i <= |s|
    ensures r.Some? ==> r.value.start == i && i + |TagLinkOpen| + 2 <= r.value.end - |TagLinkClose| && r.value.end <= |s|
  {
    if !At(s, i, TagLinkOpen, false) then None
    else match FindChar(s, '"', i + |TagLinkOpen|)
      case None => None
      case Some(q) =>
        if !(q + 1 < |s| && s[q + 1] == '>') then None
        else match FindOnLine(s, TagLinkClose, q + 2)
          case None => None
          case Some(j) => Some(Match(i, s[q + 2..j], j + |TagLinkClose|))
  }

  /** What a tag link match holds: the opening, the first `"` after it (at
      `q`) followed by `>`, and the content up to the first `</a>` after that
      (at `j`), all on one line. */
  lemma TagLinkAtShape(s: string, i: nat, m: Match) returns (q: nat, j: nat)
    requires i <= |s| && TagLinkAt(s, i) == Some(m)
    ensures At(s, i, TagLinkOpen, false) && FirstAt(s, '"', i + |TagLinkOpen|, q) && s[q + 1] == '>'
    ensures At(s, j, TagLinkClose, false) && SameLine(s, q + 2, j)
    ensures forall k | q + 2 <= k < j :: !At(s, k, TagLinkClose, false)
    ensures m == Match(i, s[q + 2..j], j + |TagLinkClose|)
  {
    var p := i + |TagLinkOpen|;
    assert At(s, i, TagLinkOpen, false);
    assert FindChar(s, '"', p).Some?;
    q := FindChar(s, '"', p).value;
    assert q + 1 < |s| && s[q + 1] == '>';
    assert FindOnLine(s, TagLinkClose, q + 2).Some?;
    j := FindOnLine(s, TagLinkClose, q + 2).value;
    TagLinkParts(s, p, q, j);
  }

  /** The first `"` and the first `</a>` on the line after it, as the tag
      link expression finds them. */
  lemma TagLinkParts(s: string, p: nat, q: nat, j: nat)
    requires p <= |s| && FindChar(s, '"', p) == Some(q) && q + 2 <= |s|
    requires FindOnLine(s, TagLinkClose, q + 2) == Some(j)
    ensures FirstAt(s, '"', p, q) && At(s, j, TagLinkClose, false) && SameLine(s, q + 2, j)
    ensures forall k | q + 2 <= k < j :: !At(s, k, TagLinkClose, false)
  {
    FindCharIsFirstAt(s, '"', p);
  }

  /** No tag link matches only when the opening is missing, or the first `"`
      after it is not followed by `>`, or no `</a>` follows on that line. */
  lemma TagLinkAtFails(s: string, i: nat)
    requires i <= |s| && TagLinkAt(s, i).None?
    ensures !At(s, i, TagLinkOpen, false) || var p := i + |TagLinkOpen|;
      forall q: nat | FirstAt(s, '"', p, q) ::
        q + 1 == |s| || s[q + 1] != '>' || forall j | SameLine(s, q + 2, j) :: !At(s, j, TagLinkClose, false)
  {
    if At(s, i, TagLinkOpen, false) {
      FindCharIsFirstAt(s, '"', i + |TagLinkOpen|);
    }
  }

  /** The anchor expression once its leading `[^>]*` has settled on ending at
      `h`: `href="` (any case) at `h`, the value runs to the next `"`, and the
      tag is closed by the next `>` after that quote. What a match holds is
      stated by `AnchorHrefShape`, when there is none by `AnchorHrefAtFails`. */
  function AnchorHrefAt(s: string, i: nat, h: nat): (r: Option<Match>)
    requires h <= |s|
    ensures r.Some? ==> r.value.start == i && h < r.value.end <= |s|
  {
    if !At(s, h, HrefOpen, true) then None
    else match FindChar(s, '"', h + |HrefOpen|)
      case None => None
      case Some(q) => match FindChar(s, '>', q + 1)
        case None => None
        case Some(e) => Some(Match(i, s[h + |HrefOpen|..q], e + 1))
  }

  /** What the anchor expression captures: the text between `href="` (any
      case) and the next `"`, which therefore holds no `"`; the match ends
      just after a `>`. */
  lemma AnchorHrefShape(s: string, i: nat, h: nat)
    requires h <= |s| && AnchorHrefAt(s, i, h).Some?
    ensures var m := AnchorHrefAt(s, i, h).value;
      var q := h + |HrefOpen| + |m.capture|;
      At(s, h, HrefOpen, true) && q < m.end && s[q] == '"'
      && m.capture == s[h + |HrefOpen|..q] && s[m.end - 1] == '>'
      && forall k | 0 <= k < |m.capture| :: m.capture[k] != '"'
  {
  }

  /** With `[^>]*` ending at `h`, the anchor fails only when `href="` (any
      case) is not at `h`, or no `"` follows it, or no `>` follows that `"`. */
  lemma AnchorHrefAtFails(s: string, i: nat, h: nat)
    requires h <= |s| && AnchorHrefAt(s, i, h).None?
    ensures !At(s, h, HrefOpen, true) || var p := h + |HrefOpen|;
      forall q: nat | FirstAt(s, '"', p, q) :: Lacks(s, '>', q + 1, |s|)
  {
    if At(s, h, HrefOpen, true) {
      FindCharIsFirstAt(s, '"', h + |HrefOpen|);
    }
  }

  /** Backtracking of the anchor's greedy leading `[^>]*`: the end of that run
      is tried from `h` downwards, so the LAST `href="` that can complete wins. */
  function AnchorHrefDownFrom(s: string, i: nat, h: int): (r: Option<Match>)
    requires h <= |s|
    decreases h
    ensures r.Some? ==> r.value.start == i && i < r.value.end <= |s|
  {
    if h < i + 2 then None
    else match AnchorHrefAt(s, i, h)
      case Some(m) => Some(m)
      case None => AnchorHrefDownFrom(s, i, h - 1)
  }

  /** The anchor's value comes from the last position at or below `h` where
      `href="…"` can complete, and no completing position is skipped. */
  lemma AnchorTakesLastHref(s: string, i: nat, h: int)
    requires h <= |s|
    ensures AnchorHrefDownFrom(s, i, h).Some? ==>
      exists h' | i + 2 <= h' <= h ::
        AnchorHrefDownFrom(s, i, h) == AnchorHrefAt(s, i, h')
        && forall k | h' < k <= h :: AnchorHrefAt(s, i, k).None?
    ensures AnchorHrefDownFrom(s, i, h).None? ==>
      forall k | i + 2 <= k <= h :: AnchorHrefAt(s, i, k).None?
  {
    if AnchorHrefDownFrom(s, i, h).Some? {
      AnchorHrefFound(s, i, h);
      var p := HrefStop(s, i, h);
      assert i + 2 <= p <= h && AnchorHrefDownFrom(s, i, h) == AnchorHrefAt(s, i, p);
    } else {
      AnchorHrefNowhere(s, i, h);
    }
  }

  /** The position the backtracking stops at: the highest one at or below `h`
      where `href="…"` completes, or one below `i + 2` when there is none. */
  function HrefStop(s: string, i: nat, h: int): int
    requires h <= |s|
    decreases h
  {
    if h < i + 2 || AnchorHrefAt(s, i, h).Some? then h else HrefStop(s, i, h - 1)
  }

  /** A value found by the backtracking comes from the position it stops at,
      and no position above that one completes. */
  lemma AnchorHrefFound(s: string, i: nat, h: int)
    requires h <= |s| && AnchorHrefDownFrom(s, i, h).Some?
    ensures var p := HrefStop(s, i, h);
      i + 2 <= p <= h && AnchorHrefDownFrom(s, i, h) == AnchorHrefAt(s, i, p)
      && forall k | p < k <= h :: AnchorHrefAt(s, i, k).None?
  {
    DownFromIsAtStop(s, i, h);
    NothingAboveStop(s, i, h);
  }

  /** The backtracking returns what the expression gives at the position it
      stops at, and nothing when that position is below `i + 2`. */
  lemma {:induction false} DownFromIsAtStop(s: string, i: nat, h: int)
    requires h <= |s|
    decreases h
    ensures var p := HrefStop(s, i, h);
      p <= h && AnchorHrefDownFrom(s, i, h) == if p < i + 2 then None else AnchorHrefAt(s, i, p)
  {
    if h >= i + 2 && AnchorHrefAt(s, i, h).None? {
      DownFromIsAtStop(s, i, h - 1);
    }
  }

  /** No position above the stop completes. */
  lemma {:induction false} NothingAboveStop(s: string, i: nat, h: int)
    requires h <= |s|
    decreases h
    ensures forall k: nat | HrefStop(s, i, h) < k <= h :: AnchorHrefAt(s, i, k).None?
  {
    if h >= i + 2 && AnchorHrefAt(s, i, h).None? {
      NothingAboveStop(s, i, h - 1);
      assert HrefStop(s, i, h) == HrefStop(s, i, h - 1);
    }
  }

  /** When the backtracking finds nothing, no position completes. */
  lemma {:induction false} AnchorHrefNowhere(s: string, i: nat, h: int)
    requires h <= |s| && AnchorHrefDownFrom(s, i, h).None?
    decreases h
    ensures forall k | i + 2 <= k <= h :: AnchorHrefAt(s, i, k).None?
  {
    if h >= i + 2 {
      AnchorHrefNowhere(s, i, h - 1);
    }
  }

  /** The anchor expression at `i`: `<` and `a` in either case (so any tag
      name starting with `a`), then the last workable `href="…"` before the
      first `>` of the tag. */
  function AnchorAt(s: string, i: nat): (r: Option<Match>)
    requires i <= |s|
    ensures r.Some? <==> (i + 2 <= |s| && s[i] == '<' && Lower(s[i + 1]) == 'a'
      && exists h | i + 2 <= h && Lacks(s, '>', i + 2, h) :: AnchorHrefAt(s, i, h).Some?)
    ensures r.Some? ==> exists h | i + 2 <= h && Lacks(s, '>', i + 2, h) ::
      r == AnchorHrefAt(s, i, h)
      && forall k | h < k && Lacks(s, '>', i + 2, k) :: AnchorHrefAt(s, i, k).None?
  {
    if i + 2 <= |s| && s[i] == '<' && Lower(s[i + 1]) == 'a' then
      var g := match FindChar(s, '>', i + 2) case Some(g) => g case None => |s|;
      AnchorTakesLastHref(s, i, g);
      TagBodyEndsAt(s, i + 2, g);
      AnchorHrefDownFrom(s, i, g)
    else None
  }

  /** The positions a `[^>]*` starting at `p` can end at are those up to the
      first `>` after `p`, or up to the end of the text when there is none. */
  lemma TagBodyEndsAt(s: string, p: nat, g: nat)
    requires p <= |s| && g == match FindChar(s, '>', p) case Some(g) => g case None => |s|
    ensures forall h | p <= h :: Lacks(s, '>', p, h) <==> h <= g
  {
  }

  /** A heading `<hN…>…</hN>`: the greedy `[^>]*` runs to the first `>`, and
      the lazy content, which may span lines, to the first closing tag after it. */
  function HeadingAt(s: string, i: nat, open: string, close: string): (r: Option<Match>)
    requires i <= |s| && |open| > 0
    ensures r.Some? ==>
      var j := r.value.end - |close|;
      r.value.start == i && At(s, i, open, false) && i + |open| < j - |r.value.capture|
      && At(s, j, close, false) && s[j - |r.value.capture| - 1] == '>'
      && r.value.capture == s[j - |r.value.capture|..j]
      && (forall k | i + |open| <= k < j - |r.value.capture| - 1 :: s[k] != '>')
      && forall k | j - |r.value.capture| <= k < j :: !At(s, k, close, false)
    ensures r.None? ==> !At(s, i, open, false) || var p := i + |open|;
      forall g: nat | FirstAt(s, '>', p, g) :: forall j | g < j <= |s| :: !At(s, j, close, false)
  {
    if !At(s, i, open, false) then None
    else match FindChar(s, '>', i + |open|)
      case None => None
      case Some(g) => match FindFrom(s, close, g + 1, false)
        case None => None
        case Some(j) => Some(Match(i, s[g + 1..j], j + |close|))
  }

  /** A script or style element: `<name` in any case followed by a word
      boundary, up to the FIRST `</name>` (any case) after the name. An
      opening tag that no closing tag follows does not match. */
  function RawBlockAt(s: string, i: nat, name: string): (r: Option<Match>)
    requires i <= |s| && |name| > 0
    ensures r.Some? ==>
      var j := r.value.end - |name| - 3;
      r.value.start == i && At(s, i, "<" + name, true)
      && (i + |name| + 1 < |s| ==> !IsWordChar(s[i + |name| + 1]))
      && i + |name| + 1 <= j && At(s, j, "</" + name + ">", true)
      && forall k | i + |name| + 1 <= k < j :: !At(s, k, "</" + name + ">", true)
    ensures r.None? ==>
      !At(s, i, "<" + name, true) || (i + |name| + 1 < |s| && IsWordChar(s[i + |name| + 1]))
      || forall k | i + |name| + 1 <= k <= |s| :: !At(s, k, "</" + name + ">", true)
  {
    var open := "<" + name;
    var close := "</" + name + ">";
    if !At(s, i, open, true) then None
    else if i + |open| < |s| && IsWordChar(s[i + |open|]) then None
    else match FindFrom(s, close, i + |open|, true)
      case None => None
      case Some(j) => Some(Match(i, "", j + |close|))
  }

  /** A `<…>` token: a `<` and the first `>` after it. */
  function TagTokenAt(s: string, i: nat): (r: Option<Match>)
    requires i <= |s|
    ensures r.Some? ==>
      i + 1 < r.value.end <= |s| && s[i] == '<' && s[r.value.end - 1] == '>'
      && r.value.start == i && forall k | i < k < r.value.end - 1 :: s[k] != '>'
    ensures r.None? ==> i == |s| || s[i] != '<' || forall k | i < k < |s| :: s[k] != '>'
  {
    if i < |s| && s[i] == '<' then
      match FindChar(s, '>', i + 1)
      case None => None
      case Some(g) => Some(Match(i, "", g + 1))
    else None
  }

  /** Whether, and how, `pat` matches at position `i` of `s` (never past the end). */
  function MatchAt(pat: Pattern, s: string, i: nat): (r: Option<Match>)
    ensures r.Some? ==> r.value.start == i && i < r.value.end <= |s|
  {
    if |s| < i then None
    else match pat
      case QuoteSpan => LazyElementAt(s, i, QuoteOpen, QuoteClose)
      case AuthorSmall => LazyElementAt(s, i, AuthorOpen, AuthorClose)
      case TagsBlock => LazyElementAt(s, i, TagsOpen, TagsClose)
      case TagLink => TagLinkAt(s, i)
      case Anchor => AnchorAt(s, i)
      case Heading1 => HeadingAt(s, i, "<h1", "</h1>")
      case Heading2 => HeadingAt(s, i, "<h2", "</h2>")
      case ScriptBlock => RawBlockAt(s, i, "script")
      case StyleBlock => RawBlockAt(s, i, "style")
      case TagToken => TagTokenAt(s, i)
      case Literal(text) =>
        if |text| > 0 && At(s, i, text, false) then Some(Match(i, "", i + |text|)) else None
  }

  /** What one expression matches at a position of a text, if anything. */
  type Matcher = (string, nat) -> Option<Match>

  /** A matcher only reports matches that start where it was asked and end
      inside the text, strictly after their start (no expression of the edge
      function can match the empty string). */
  ghost predicate WellFormed(matcher: Matcher) {
    forall s: string, i: nat :: matcher(s, i).Some? ==>
      matcher(s, i).value.start == i && i < matcher(s, i).value.end <= |s|
  }

  /** The matcher of an expression of the edge function. */
  function Expr(pat: Pattern): (matcher: Matcher)
    ensures WellFormed(matcher)
  {
    (s: string, i: nat) => MatchAt(pat, s, i)
  }

  /** One `exec` of a global expression whose `lastIndex` is `p`: the leftmost
      match starting at or after `p`. */
  function FirstMatch(matcher: Matcher, s: string, p: nat): (r: Option<Match>)
    requires WellFormed(matcher) && p <= |s|
    decreases |s| - p
    ensures r.Some? ==> p <= r.value.start <= |s| && matcher(s, r.value.start) == r
    ensures r.Some? ==> forall k | p <= k < r.value.start :: matcher(s, k).None?
    ensures r.None? ==> forall k | p <= k <= |s| :: matcher(s, k).None?
  {
    if matcher(s, p).Some? then matcher(s, p)
    else if p == |s| then None
    else FirstMatch(matcher, s, p + 1)
  }

  /** The matches a loop of `exec` calls visits when `lastIndex` starts at `p`. */
  function MatchesFrom(matcher: Matcher, s: string, p: nat): seq<Match>
    requires WellFormed(matcher) && p <= |s|
    decreases |s| - p
  {
    match FirstMatch(matcher, s, p)
    case None => []
    case Some(m) => [m] + MatchesFrom(matcher, s, m.end)
  }

  /** Every match of a global `exec` loop of `pat` over `s`. */
  function Matches(pat: Pattern, s: string): seq<Match> {
    MatchesFrom(Expr(pat), s, 0)
  }

  /** What a selector makes of the first capture group of each match, in
      order. */
  function MapCaptures<T>(f: string -> T, ms: seq<Match>): (r: seq<T>)
    ensures |r| == |ms|
  {
    if ms == [] then [] else [f(ms[0].capture)] + MapCaptures(f, ms[1..])
  }

  /** The k-th element comes from the k-th match. */
  lemma {:induction false} MapCapturesAt<T>(f: string -> T, ms: seq<Match>)
    ensures forall k | 0 <= k < |ms| :: MapCaptures(f, ms)[k] == f(ms[k].capture)
  {
    if ms != [] {
      MapCapturesAt(f, ms[1..]);
      forall k | 0 < k < |ms| ensures MapCaptures(f, ms)[k] == f(ms[k].capture) {
        assert ms[1..][k - 1] == ms[k];
      }
    }
  }

  /** The non-empty results of `f` on the first capture group of each match,
      in order. */
  function MapNonEmptyCaptures(f: string -> string, ms: seq<Match>): (r: seq<string>)
    ensures |r| <= |ms|
    ensures forall t | t in r :: t != []
  {
    if ms == [] then []
    else if f(ms[0].capture) == [] then MapNonEmptyCaptures(f, ms[1..])
    else [f(ms[0].capture)] + MapNonEmptyCaptures(f, ms[1..])
  }

  /** The texts with the empty ones left out, in order. */
  function NonEmptyTexts(ts: seq<string>): (r: seq<string>)
    ensures |r| <= |ts|
    ensures forall t | t in r :: t != [] && t in ts
    ensures forall t | t in ts && t != [] :: t in r
  {
    if ts == [] then []
    else if ts[0] == [] then NonEmptyTexts(ts[1..])
    else [ts[0]] + NonEmptyTexts(ts[1..])
  }

  /** Filtering a concatenation filters each part and keeps them in order. */
  lemma {:induction false} NonEmptyTextsAppend(a: seq<string>, b: seq<string>)
    ensures NonEmptyTexts(a + b) == NonEmptyTexts(a) + NonEmptyTexts(b)
  {
    if a == [] {
      assert a + b == b;
    } else {
      assert (a + b)[0] == a[0] && (a + b)[1..] == a[1..] + b;
      NonEmptyTextsAppend(a[1..], b);
    }
  }

  /** Every text stays where it was when it is not empty, and only then:
      the filter keeps the order and removes no repeated text. */
  lemma NonEmptyTextsKeepsOrder(a: seq<string>, t: string, b: seq<string>)
    ensures NonEmptyTexts(a + [t] + b)
      == NonEmptyTexts(a) + (if t == [] then [] else [t]) + NonEmptyTexts(b)
  {
    NonEmptyTextsAppend(a + [t], b);
    NonEmptyTextsAppend(a, [t]);
    assert NonEmptyTexts([t]) == NonEmptyTexts([t][1..]) || NonEmptyTexts([t]) == [t] + NonEmptyTexts([t][1..]);
  }

  /** The heading loop's filtered map is the map of every capture, with the
      empty texts then left out. */
  lemma {:induction false} MapNonEmptyCapturesFiltersMap(f: string -> string, ms: seq<Match>)
    ensures MapNonEmptyCaptures(f, ms) == NonEmptyTexts(MapCaptures(f, ms))
  {
    if ms != [] {
      MapNonEmptyCapturesFiltersMap(f, ms[1..]);
      var all := MapCaptures(f, ms);
      assert all == [f(ms[0].capture)] + MapCaptures(f, ms[1..]);
      assert all[1..] == MapCaptures(f, ms[1..]);
    }
  }

  /** `s.replace(re, rep)` for a global expression, from position `p` on:
      each match is replaced by `rep`, everything between matches is kept. */
  function ReplaceFrom(matcher: Matcher, s: string, p: nat, rep: string): string
    requires WellFormed(matcher) && p <= |s|
    decreases |s| - p
  {
    match FirstMatch(matcher, s, p)
    case None => s[p..]
    case Some(m) => s[p..m.start] + rep + ReplaceFrom(matcher, s, m.end, rep)
  }

  /** `s.replace(pat, rep)` for a global expression of the edge function. */
  function Replace(pat: Pattern, s: string, rep: string): string {
    ReplaceFrom(Expr(pat), s, 0, rep)
  }

  /** The matches of an `exec` loop come in document order, do not overlap, lie
      inside the text, and each is what the expression matches at its start. */
  lemma {:induction false} MatchesInDocumentOrder(matcher: Matcher, s: string, p: nat)
    requires WellFormed(matcher) && p <= |s|
    decreases |s| - p
    ensures forall k | 0 <= k < |MatchesFrom(matcher, s, p)| ::
      var m := MatchesFrom(matcher, s, p)[k];
      p <= m.start < m.end <= |s| && matcher(s, m.start) == Some(m)
    ensures forall k | 0 < k < |MatchesFrom(matcher, s, p)| ::
      MatchesFrom(matcher, s, p)[k - 1].end <= MatchesFrom(matcher, s, p)[k].start
  {
    match FirstMatch(matcher, s, p)
    case None =>
    case Some(m) =>
      var rest := MatchesFrom(matcher, s, m.end);
      MatchesInDocumentOrder(matcher, s, m.end);
      var ms := [m] + rest;
      assert MatchesFrom(matcher, s, p) == ms;
      forall k | 0 <= k < |ms|
        ensures p <= ms[k].start < ms[k].end <= |s| && matcher(s, ms[k].start) == Some(ms[k])
      {
        if k > 0 { assert ms[k] == rest[k - 1]; }
      }
      forall k | 0 < k < |ms|
        ensures ms[k - 1].end <= ms[k].start
      {
        if k > 1 { assert ms[k - 1] == rest[k - 2] && ms[k] == rest[k - 1]; }
        else { assert ms[k] == rest[0]; }
      }
  }

  /** An `exec` loop skips no match except one that overlaps a match already
      taken: every position where the expression matches lies inside some
      visited match. */
  lemma {:induction false} MatchesCoverEveryMatch(matcher: Matcher, s: string, p: nat, k: nat)
    requires WellFormed(matcher) && p <= k <= |s| && matcher(s, k).Some?
    decreases |s| - p
    ensures exists j | 0 <= j < |MatchesFrom(matcher, s, p)| ::
      MatchesFrom(matcher, s, p)[j].start <= k < MatchesFrom(matcher, s, p)[j].end
  {
    match FirstMatch(matcher, s, p)
    case None =>
    case Some(m) =>
      var rest := MatchesFrom(matcher, s, m.end);
      var ms := [m] + rest;
      assert MatchesFrom(matcher, s, p) == ms;
      if k < m.end {
        assert ms[0].start <= k < ms[0].end;
      } else {
        MatchesCoverEveryMatch(matcher, s, m.end, k);
        var j :| 0 <= j < |rest| && rest[j].start <= k < rest[j].end;
        assert ms[j + 1] == rest[j];
      }
  }

  /** A global `replace` changes nothing when the expression matches nowhere. */
  lemma ReplaceWithoutMatchIsIdentity(matcher: Matcher, s: string, rep: string)
    requires WellFormed(matcher)
    requires forall k | 0 <= k <= |s| :: matcher(s, k).None?
    ensures ReplaceFrom(matcher, s, 0, rep) == s
  {
    assert FirstMatch(matcher, s, 0).None?;
  }

  /** `lit` occurs nowhere in `s`. */
  predicate Free(s: string, lit: string) {
    forall k | 0 <= k <= |s| :: !At(s, k, lit, false)
  }

  /** A piece of a piece of a text is a piece of the text. */
  lemma SliceOfSlice(s: string, a: nat, b: nat, k: nat, n: nat)
    requires a <= b <= |s| && k + n <= b - a
    ensures s[a..b][k..k + n] == s[a + k..a + k + n]
  {
    var t := s[a..b][k..k + n];
    var u := s[a + k..a + k + n];
    forall j | 0 <= j < n ensures t[j] == u[j] {
      assert t[j] == s[a + k + j];
    }
  }

  /** A piece of a text in which `lit` occurs nowhere holds no occurrence either. */
  lemma FreeSlice(s: string, a: nat, b: nat, lit: string)
    requires a <= b <= |s| && Free(s, lit)
    ensures Free(s[a..b], lit)
  {
    forall k: nat | k <= b - a && At(s[a..b], k, lit, false)
      ensures false
    {
      AtInSlice(s, a, b, k, lit);
    }
  }

  /** An occurrence in a piece of a text is an occurrence in the text. */
  lemma AtInSlice(s: string, a: nat, b: nat, k: nat, lit: string)
    requires a <= b <= |s| && At(s[a..b], k, lit, false)
    ensures At(s, a + k, lit, false)
  {
    SliceOfSlice(s, a, b, k, |lit|);
  }

  /** Joining two texts free of `lit` around a non-empty text none of whose
      characters is in `lit` creates no occurrence: any occurrence that
      reached the middle would contain one of its characters. */
  lemma FreeJoin(a: string, mid: string, b: string, lit: string)
    requires |lit| > 0 && Free(a, lit) && Free(b, lit)
    requires |mid| > 0 && forall c | c in mid :: c !in lit
    ensures Free(a + mid + b, lit)
  {
    var t := a + mid + b;
    forall k: nat | k <= |t| && At(t, k, lit, false)
      ensures false
    {
      if k + |lit| <= |a| {
        LiteralAtPrefix(a, mid + b, k, lit);
      } else if k < |a| + |mid| {
        OccurrenceCovers(t, k, lit, if k < |a| then |a| else k);
      } else {
        LiteralAtShift(a + mid, b, k - |a| - |mid|, lit);
      }
    }
  }

  /** An occurrence inside `a` is an occurrence in `a + rest`, and back. */
  lemma LiteralAtPrefix(a: string, rest: string, k: nat, lit: string)
    requires k + |lit| <= |a|
    ensures At(a + rest, k, lit, false) <==> At(a, k, lit, false)
  {
    assert (a + rest)[k..k + |lit|] == a[k..k + |lit|];
  }

  /** Every character an occurrence covers is a character of the literal. */
  lemma OccurrenceCovers(t: string, k: nat, lit: string, j: nat)
    requires At(t, k, lit, false) && k <= j < k + |lit|
    ensures t[j] in lit
  {
    assert t[k..k + |lit|][j - k] == t[j];
  }

  /** A global `replace` of a literal by a non-empty text sharing no
      character with it leaves no occurrence of the literal. */
  lemma {:induction false} ReplaceLeavesNoLiteral(s: string, p: nat, lit: string, rep: string)
    requires p <= |s| && |lit| > 0 && |rep| > 0 && forall c | c in rep :: c !in lit
    decreases |s| - p
    ensures Free(ReplaceFrom(Expr(Literal(lit)), s, p, rep), lit)
  {
    var matcher := Expr(Literal(lit));
    match FirstMatch(matcher, s, p)
    case None =>
      assert s[p..] == s[p..|s|];
      forall k: nat | k <= |s| - p && At(s[p..], k, lit, false) ensures false {
        assert matcher(s, p + k).None?;
        AtInSlice(s, p, |s|, k, lit);
      }
    case Some(m) =>
      ReplaceLeavesNoLiteral(s, m.end, lit, rep);
      var gap := s[p..m.start];
      forall k: nat | k <= |gap| && At(gap, k, lit, false) ensures false {
        assert matcher(s, p + k).None?;
        AtInSlice(s, p, m.start, k, lit);
      }
      FreeJoin(gap, rep, ReplaceFrom(matcher, s, m.end, rep), lit);
  }

  /** A global `replace` of a literal by a non-empty text that shares no
      character with another literal creates no occurrence of that other
      literal. */
  lemma {:induction false} ReplaceKeepsFree(s: string, p: nat, lit: string, rep: string, other: string)
    requires p <= |s| && |lit| > 0 && |other| > 0 && |rep| > 0 && forall c | c in rep :: c !in other
    requires Free(s[p..], other)
    decreases |s| - p
    ensures Free(ReplaceFrom(Expr(Literal(lit)), s, p, rep), other)
  {
    var matcher := Expr(Literal(lit));
    match FirstMatch(matcher, s, p)
    case None =>
    case Some(m) =>
      var rest := s[p..];
      FreeSlice(rest, m.end - p, |rest|, other);
      assert rest[m.end - p..|rest|] == s[m.end..];
      ReplaceKeepsFree(s, m.end, lit, rep, other);
      FreeSlice(rest, 0, m.start - p, other);
      assert rest[0..m.start - p] == s[p..m.start];
      FreeJoin(s[p..m.start], rep, ReplaceFrom(matcher, s, m.end, rep), other);
  }

  /** Where the expression does not match, a global `replace` keeps the
      character and goes on with the next position. */
  lemma ReplaceKeepsCharacter(matcher: Matcher, s: string, p: nat, rep: string)
    requires WellFormed(matcher) && p < |s| && matcher(s, p).None?
    ensures ReplaceFrom(matcher, s, p, rep) == [s[p]] + ReplaceFrom(matcher, s, p + 1, rep)
  {
    assert FirstMatch(matcher, s, p) == FirstMatch(matcher, s, p + 1);
    match FirstMatch(matcher, s, p + 1)
    case None =>
      assert s[p..] == [s[p]] + s[p + 1..];
    case Some(m) =>
      var gap := s[p + 1..m.start];
      assert s[p..m.start] == [s[p]] + gap;
      AppendAssoc([s[p]], gap, rep);
      AppendAssoc([s[p]], gap + rep, ReplaceFrom(matcher, s, m.end, rep));
  }

  /** Where the expression matches, a global `replace` writes the replacement
      and goes on after the match. */
  lemma ReplaceAtMatch(matcher: Matcher, s: string, p: nat, rep: string)
    requires WellFormed(matcher) && p <= |s| && matcher(s, p).Some?
    ensures ReplaceFrom(matcher, s, p, rep) == rep + ReplaceFrom(matcher, s, matcher(s, p).value.end, rep)
  {
    assert s[p..p] == [];
  }

  /** A run of positions where the expression does not match passes through
      a global `replace` unchanged. */
  lemma {:induction false} ReplaceKeepsRun(matcher: Matcher, s: string, p: nat, q: nat, rep: string)
    requires WellFormed(matcher) && p <= q <= |s|
    requires forall k | p <= k < q :: matcher(s, k).None?
    decreases q - p
    ensures ReplaceFrom(matcher, s, p, rep) == s[p..q] + ReplaceFrom(matcher, s, q, rep)
  {
    if p < q {
      ReplaceKeepsCharacter(matcher, s, p, rep);
      ReplaceKeepsRun(matcher, s, p + 1, q, rep);
      AppendAssoc([s[p]], s[p + 1..q], ReplaceFrom(matcher, s, q, rep));
      assert s[p..q] == [s[p]] + s[p + 1..q];
    }
  }

  /** Concatenation is associative. */
  lemma AppendAssoc<T>(a: seq<T>, b: seq<T>, c: seq<T>)
    ensures a + (b + c) == (a + b) + c
  {
  }

  /** A global `replace` of an expression that matches once, between runs
      where it matches nowhere, replaces that match and nothing else. */
  lemma ReplaceSingleMatch(matcher: Matcher, s: string, p: nat, e: nat, rep: string)
    requires WellFormed(matcher) && p < e <= |s|
    requires forall k | 0 <= k < p :: matcher(s, k).None?
    requires matcher(s, p).Some? && matcher(s, p).value.end == e
    requires forall k | e <= k < |s| :: matcher(s, k).None?
    ensures ReplaceFrom(matcher, s, 0, rep) == s[..p] + rep + s[e..]
  {
    ReplaceKeepsRun(matcher, s, 0, p, rep);
    ReplaceAtMatch(matcher, s, p, rep);
    ReplaceKeepsRun(matcher, s, e, |s|, rep);
    assert s[e..|s|] == s[e..];
  }

  /** A match moved `d` positions to the right. */
  function Shifted(r: Option<Match>, d: nat): (shifted: Option<Match>)
    ensures shifted.None? <==> r.None?
    ensures r.Some? ==> shifted.value.start == r.value.start + d && shifted.value.end == r.value.end + d
  {
    match r
    case None => None
    case Some(m) => Some(Match(m.start + d, m.capture, m.end + d))
  }

  /** The expression matches inside `b` alike whether or not `pre` stands
      before it. */
  ghost predicate ShiftInvariant(matcher: Matcher, pre: string, b: string) {
    forall i: nat | i <= |b| :: matcher(pre + b, |pre| + i) == Shifted(matcher(b, i), |pre|)
  }

  /** A literal occurs in `b` exactly where it occurs in `pre + b`, shifted. */
  lemma LiteralAtShift(pre: string, b: string, i: nat, lit: string)
    requires i <= |b|
    ensures At(pre + b, |pre| + i, lit, false) <==> At(b, i, lit, false)
  {
    var s := pre + b;
    if i + |lit| <= |b| {
      assert s[|pre|..|s|] == b;
      SliceOfSlice(s, |pre|, |s|, i, |lit|);
    }
  }

  /** A literal matches in `b` exactly where it matches in `pre + b`. */
  lemma LiteralMatchShift(pre: string, b: string, i: nat, lit: string)
    requires i <= |b|
    ensures Expr(Literal(lit))(pre + b, |pre| + i) == Shifted(Expr(Literal(lit))(b, i), |pre|)
  {
    LiteralAtShift(pre, b, i, lit);
  }

  /** The literal's matcher does not care what stands before the text. */
  lemma LiteralShiftInvariant(pre: string, b: string, lit: string)
    ensures ShiftInvariant(Expr(Literal(lit)), pre, b)
  {
    forall i: nat | i <= |b|
      ensures Expr(Literal(lit))(pre + b, |pre| + i) == Shifted(Expr(Literal(lit))(b, i), |pre|)
    {
      LiteralMatchShift(pre, b, i, lit);
    }
    ShiftInvariantIntro(Expr(Literal(lit)), pre, b);
  }

  /** Shift invariance, position by position. */
  lemma ShiftInvariantIntro(matcher: Matcher, pre: string, b: string)
    requires forall i: nat | i <= |b| :: matcher(pre + b, |pre| + i) == Shifted(matcher(b, i), |pre|)
    ensures ShiftInvariant(matcher, pre, b)
  {
  }

  /** One position of a shift-invariant expression. */
  lemma ShiftAt(matcher: Matcher, pre: string, b: string, i: nat)
    requires i <= |b| && ShiftInvariant(matcher, pre, b)
    ensures matcher(pre + b, |pre| + i) == Shifted(matcher(b, i), |pre|)
  {
  }

  /** At the end of the text, a global `replace` has nothing left to write. */
  lemma ReplaceAtEnd(matcher: Matcher, s: string, rep: string)
    requires WellFormed(matcher) && matcher(s, |s|).None?
    ensures ReplaceFrom(matcher, s, |s|, rep) == []
  {
  }

  /** Replacing from inside `b` in `pre + b` is replacing in `b`. */
  lemma {:induction false} ReplaceShift(matcher: Matcher, pre: string, b: string, p: nat, rep: string)
    requires WellFormed(matcher) && p <= |b| && ShiftInvariant(matcher, pre, b)
    decreases |b| - p
    ensures ReplaceFrom(matcher, pre + b, |pre| + p, rep) == ReplaceFrom(matcher, b, p, rep)
  {
    ShiftAt(matcher, pre, b, p);
    if matcher(b, p).Some? {
      var e := matcher(b, p).value.end;
      ReplaceAtMatch(matcher, pre + b, |pre| + p, rep);
      ReplaceAtMatch(matcher, b, p, rep);
      ReplaceShift(matcher, pre, b, e, rep);
    } else if p < |b| {
      ReplaceKeepsCharacter(matcher, pre + b, |pre| + p, rep);
      ReplaceKeepsCharacter(matcher, b, p, rep);
      assert (pre + b)[|pre| + p] == b[p];
      ReplaceShift(matcher, pre, b, p + 1, rep);
    } else {
      ReplaceAtEnd(matcher, pre + b, rep);
      ReplaceAtEnd(matcher, b, rep);
    }
  }

  /** A prefix the expression matches nowhere in passes through a global
      `replace` unchanged. */
  lemma {:induction false} ReplacePlainPrefix(matcher: Matcher, a: string, b: string, p: nat, rep: string)
    requires WellFormed(matcher) && p <= |a| && ShiftInvariant(matcher, a, b)
    requires forall k | p <= k < |a| :: matcher(a + b, k).None?
    decreases |a| - p
    ensures ReplaceFrom(matcher, a + b, p, rep) == a[p..] + ReplaceFrom(matcher, b, 0, rep)
  {
    if p == |a| {
      ReplaceShift(matcher, a, b, 0, rep);
    } else {
      ReplaceKeepsCharacter(matcher, a + b, p, rep);
      ReplacePlainPrefix(matcher, a, b, p + 1, rep);
      assert (a + b)[p] == a[p];
      assert a[p..] == [a[p]] + a[p + 1..];
      AppendAssoc([a[p]], a[p + 1..], ReplaceFrom(matcher, b, 0, rep));
    }
  }

  /** A literal cannot start inside a text without its first character. */
  lemma LiteralAbsentFrom(a: string, b: string, lit: string)
    requires |lit| > 0 && lit[0] !in a
    ensures forall k | 0 <= k < |a| :: Expr(Literal(lit))(a + b, k).None?
  {
    forall k | 0 <= k < |a| ensures !At(a + b, k, lit, false) {
      if k + |lit| <= |a + b| {
        assert (a + b)[k..k + |lit|][0] == a[k];
      }
    }
  }

  /** After a prefix it matches nowhere in, a global `replace` writes the
      replacement for a match of exactly `lit` and goes on with the rest. */
  lemma ReplaceAfterPlainPrefix(matcher: Matcher, a: string, lit: string, c: string, rep: string)
    requires WellFormed(matcher) && ShiftInvariant(matcher, a, lit + c) && ShiftInvariant(matcher, lit, c)
    requires forall k | 0 <= k < |a| :: matcher(a + (lit + c), k).None?
    requires matcher(lit + c, 0).Some? && matcher(lit + c, 0).value.end == |lit|
    ensures ReplaceFrom(matcher, a + lit + c, 0, rep) == a + rep + ReplaceFrom(matcher, c, 0, rep)
  {
    var tail := lit + c;
    AppendAssoc(a, lit, c);
    ReplacePlainPrefix(matcher, a, tail, 0, rep);
    assert a[0..] == a;
    ReplaceAtMatch(matcher, tail, 0, rep);
    ReplaceShift(matcher, lit, c, 0, rep);
    AppendAssoc(a, rep, ReplaceFrom(matcher, c, 0, rep));
  }

  /** A global `replace` turns the first occurrence of the literal, after a
      prefix without its first character, into the replacement, and goes on
      with the rest. */
  lemma ReplaceFirstOccurrence(a: string, lit: string, c: string, rep: string)
    requires |lit| > 0 && lit[0] !in a
    ensures Replace(Literal(lit), a + lit + c, rep) == a + rep + Replace(Literal(lit), c, rep)
  {
    LiteralAbsentFrom(a, lit + c, lit);
    LiteralShiftInvariant(a, lit + c, lit);
    LiteralShiftInvariant(lit, c, lit);
    assert (lit + c)[0..|lit|] == lit;
    ReplaceAfterPlainPrefix(Expr(Literal(lit)), a, lit, c, rep);
  }
}
