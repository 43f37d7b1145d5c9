# WebScraperPro: the scraping engine and the account forms, in Dafny

This project models two parts of WebScraperPro and proves properties of them.

The first part is the web-scraper edge function (`supabase/functions/web-scraper/index.ts`):

- its hand-rolled `DOMParser`. This covers the script and style strip, the `querySelectorAll` selectors written as global `exec` loops, and `body.textContent`.
- `scrapeWebsite`, with its status check and the dispatch on the five scrape types `html`, `text`, `headings`, `links` and `quotes`.
- the request handler's outcome decision: the missing-field reply, the HEAD probe, and the status, status code, result and message it records.

The second part is the three account forms in `src/components/`:

- the two-step sign-up form: password requirements, step validation, navigation, the change handler, the submit gate and the disabled create-account button.
- the sign-in form.
- the reset-password form.

All three share the unanchored e-mail pattern `\S+@\S+\.\S+`.

Modules, one concern each:

- `Wrappers` holds `Option` and `Result`.
- `JsText` holds JavaScript's `\s` set, `trim`, literal search and ASCII case folding.
- `Patterns` writes each regular expression of the edge function as a matcher at one position, except `/\s+/g`, which `DomParser.CollapseSpaces` models directly. It follows that expression's own backtracking: lazy `(.*?)`, the `s` flag, greedy `[^>]*`, the `i` flag. It also holds the global `exec` loop (`MatchesFrom`) and the global `replace` (`ReplaceFrom`), which drive the matchers.
- `DomParser` holds the selector loops. They are methods proved against `Patterns`.
- `Failures` holds the thrown errors and their messages.
- `Scraper` holds `scrapeWebsite` and the quote assembly.
- `Handler` holds the outcome decision of the request handler.
- `EmailPattern` holds the e-mail test. It is a one-pass scanner, proved equal to the pattern's meaning.
- `FormErrors` holds the per-field error record.
- `SignUpForm`, `SignInForm` and `ForgotPasswordForm` hold the three forms.

Form state is a plain record. Each handler takes it and returns the new one. The authentication calls and the two fetches are parameters: each one says how the call settles.

The links mode is modelled as written. Every element that the `a` selector pushes reads the one `match` variable of the loop, and that variable is `null` once the loop ends. So the mode throws a `TypeError` on every page where some anchor matched, and it returns an empty list otherwise. The dispatch and the handler keep this behaviour, because the recorded outcome is that of the function as deployed. The corrected selector and links mode are modelled and proved beside it (see Findings).

The headings mode returns all `h1` texts first and then all `h2` texts. Neither group is interleaved with the other in document order. This is what the function does, and the model keeps it.

For an anchor carrying several `href` attributes, the leading greedy `[^>]*` backtracks from the right. So the value comes from the LAST `href="…"` in the tag that can complete, not the first (`Patterns.AnchorTakesLastHref`). This model follows the code here.

## Model

| member | source | states |
|---|---|---|
| JsText.FindFrom | supabase/functions/web-scraper/index.ts:33 | the first occurrence of a literal at or after a position, none skipped; none means no occurrence from there on |
| JsText.FindChar | supabase/functions/web-scraper/index.ts:66 | the first occurrence of a character at or after a position, none skipped |
| JsText.FindCharIsFirstAt | supabase/functions/web-scraper/index.ts:53 | the character search finds a position exactly when it holds the first occurrence from the start position |
| JsText.FindFromFirst | supabase/functions/web-scraper/index.ts:25-26 | the literal search stops at the first occurrence |
| JsText.TrimStartDropsLeadingSpace | supabase/functions/web-scraper/index.ts:94 | `trimStart` leaves a suffix, drops only `\s` characters, and the result starts with a non-blank |
| JsText.TrimEndDropsTrailingSpace | supabase/functions/web-scraper/index.ts:94 | `trimEnd` leaves a prefix, drops only `\s` characters, and the result ends with a non-blank |
| JsText.TrimEnds | supabase/functions/web-scraper/index.ts:94 | a non-empty `trim` result has non-blank ends; the result is empty exactly when every character is blank |
| JsText.TrimBlank | supabase/functions/web-scraper/index.ts:94 | a text of `\s` characters only trims to nothing from either end |
| JsText.TrimStartAppend | supabase/functions/web-scraper/index.ts:94 | `trimStart` of a concatenation trims into the second part only when the first is all blank |
| JsText.TrimEndAppend | supabase/functions/web-scraper/index.ts:94 | `trimEnd` of a concatenation trims into the first part only when the second is all blank |
| JsText.TrimIsSlice | supabase/functions/web-scraper/index.ts:94 | `trim` returns a contiguous slice of its input |
| JsText.TrimIdempotent | supabase/functions/web-scraper/index.ts:127 | trimming an already trimmed text changes nothing |
| Patterns.LazyElementAt | supabase/functions/web-scraper/index.ts:33 | a fixed-open element with lazy `(.*?)` under the `s` flag captures up to the first closing tag, and fails only when the opening is absent or no closing tag follows |
| Patterns.FindOnLine | supabase/functions/web-scraper/index.ts:53 | a lazy `(.*?)` without the `s` flag ends at the first closing literal and never crosses a line terminator; it fails only when no closing literal follows on the same line |
| Patterns.TagLinkAt | supabase/functions/web-scraper/index.ts:53 | a tag link match starts at the tag, and its end lies past the opening, the value and the closing tag, inside the text |
| Patterns.TagLinkAtShape | supabase/functions/web-scraper/index.ts:53 | a tag link match is the opening, a `"`-free value up to its first `"`, a `>`, and the content up to the first `</a>` on the same line, which is the capture |
| Patterns.TagLinkAtFails | supabase/functions/web-scraper/index.ts:53 | a tag link fails only when the opening is absent, the value's first `"` is not followed by `>`, or no `</a>` follows on the same line |
| Patterns.AnchorHrefAt | supabase/functions/web-scraper/index.ts:66 | once `[^>]*` settles, the anchor match starts at the tag and ends inside the text after its `href` |
| Patterns.AnchorHrefShape | supabase/functions/web-scraper/index.ts:66 | the anchor's capture lies between `href="` (any case) and the next `"`, holds no `"`, and the match ends just after a `>` |
| Patterns.AnchorHrefDownFrom | supabase/functions/web-scraper/index.ts:66 | backtracking the greedy `[^>]*` yields a match that starts at the tag and ends inside the text |
| Patterns.AnchorHrefAtFails | supabase/functions/web-scraper/index.ts:66 | once `[^>]*` settles before an `href="`, the anchor fails only when no `>` follows the value's closing `"` |
| Patterns.TagBodyEndsAt | supabase/functions/web-scraper/index.ts:66 | `[^>]*` can settle exactly at the positions up to the tag's first `>`, or up to the end when there is none |
| Patterns.AnchorTakesLastHref | supabase/functions/web-scraper/index.ts:66 | the anchor takes the LAST `href="…"` of the tag that can complete, skipping none |
| Patterns.AnchorAt | supabase/functions/web-scraper/index.ts:66 | the anchor expression matches exactly when `<` and `a`/`A` (any tag whose name starts with `a`) are followed, before the tag's first `>`, by an `href` that completes; the match is the one at the last such `href` |
| Patterns.HeadingAt | supabase/functions/web-scraper/index.ts:74-75 | a heading match: `[^>]*` up to the first `>`, lazy content to the first closing tag after it; it fails only when the opening is absent, no `>` follows, or no closing tag follows that `>` |
| Patterns.RawBlockAt | supabase/functions/web-scraper/index.ts:25-26 | a script or style element needs `<name`, a word boundary, and a later `</name>` (any case); the first such closing tag ends it; no closing tag, no match |
| Patterns.TagTokenAt | supabase/functions/web-scraper/index.ts:78 | a `<…>` token runs from `<` to the first `>`, and fails only when no `>` follows |
| Patterns.MatchAt | supabase/functions/web-scraper/index.ts:25-92 | every expression of the edge function matches a non-empty span starting where it is tried |
| Patterns.Expr | supabase/functions/web-scraper/index.ts:33-92 | each expression, as a matcher, is well formed (non-empty matches starting at the position tried) |
| Patterns.FirstMatch | supabase/functions/web-scraper/index.ts:35 | one `exec` from `lastIndex`: the leftmost match at or after it, no earlier position matching; none when no position matches |
| Patterns.MapCaptures | supabase/functions/web-scraper/index.ts:36 | one element per match |
| Patterns.MapCapturesAt | supabase/functions/web-scraper/index.ts:36 | the k-th element is built from the k-th match's capture |
| Patterns.MapNonEmptyCaptures | supabase/functions/web-scraper/index.ts:79 | at most one element per match, and no empty text |
| Patterns.MapNonEmptyCapturesFiltersMap | supabase/functions/web-scraper/index.ts:77-80 | pushing only the non-empty texts is mapping every match and then dropping the empty texts |
| Patterns.NonEmptyTexts | supabase/functions/web-scraper/index.ts:128 | the filter keeps exactly the non-empty texts, and no new ones |
| Patterns.NonEmptyTextsAppend | supabase/functions/web-scraper/index.ts:128 | filtering a concatenation is concatenating the filtered parts |
| Patterns.NonEmptyTextsKeepsOrder | supabase/functions/web-scraper/index.ts:128 | a non-empty text keeps its place between the texts before it and the texts after it |
| Patterns.MatchesInDocumentOrder | supabase/functions/web-scraper/index.ts:35 | the global `exec` loop yields genuine leftmost matches, in document order, without overlap |
| Patterns.MatchesCoverEveryMatch | supabase/functions/web-scraper/index.ts:35 | every position where the expression matches lies inside one of the matches the loop yields |
| Patterns.ReplaceWithoutMatchIsIdentity | supabase/functions/web-scraper/index.ts:25 | a global `replace` of an expression that matches nowhere returns the text unchanged |
| Patterns.ReplaceKeepsCharacter | supabase/functions/web-scraper/index.ts:25 | where the expression does not match, a global `replace` copies the character and goes on at the next position |
| Patterns.ReplaceAtMatch | supabase/functions/web-scraper/index.ts:25 | where the expression matches, a global `replace` writes the replacement and goes on after the match |
| Patterns.ReplaceKeepsRun | supabase/functions/web-scraper/index.ts:25 | a run of positions without a match is copied unchanged |
| Patterns.ReplaceSingleMatch | supabase/functions/web-scraper/index.ts:25 | an expression matching at one place only has that match, and nothing else, replaced |
| Patterns.ReplaceShift | supabase/functions/web-scraper/index.ts:36 | for an expression that ignores what precedes, replacing inside `b` of `pre + b` is replacing in `b` |
| Patterns.LiteralShiftInvariant | supabase/functions/web-scraper/index.ts:36 | a literal matches in `b` exactly where it matches in `pre + b`, shifted |
| Patterns.ReplacePlainPrefix | supabase/functions/web-scraper/index.ts:36 | a prefix in which the expression matches nowhere passes through the `replace` unchanged |
| Patterns.ReplaceFirstOccurrence | supabase/functions/web-scraper/index.ts:36 | after a prefix without the literal's first character, the literal becomes the replacement and the `replace` goes on with the rest |
| Patterns.ReplaceLeavesNoLiteral | supabase/functions/web-scraper/index.ts:36 | replacing a literal by a text that shares no character with it leaves no occurrence of the literal |
| Patterns.ReplaceKeepsFree | supabase/functions/web-scraper/index.ts:36 | such a replacement creates no occurrence of another literal that shares no character with the replacement |
| Failures.NatToString | supabase/functions/web-scraper/index.ts:109 | a status prints as a non-empty run of decimal digits, without a leading zero, whose value is the status |
| Failures.OwnMessagesTellFailuresApart | supabase/functions/web-scraper/index.ts:208-210 | two different failures the function raises itself record different messages, whether of different kinds or of one kind with different status codes |
| DomParser.CollapseSpaces | supabase/functions/web-scraper/index.ts:93 | `replace(/\s+/g, ' ')` keeps emptiness and a leading blank, and leaves single `' '` blanks only |
| DomParser.CollapseAppend | supabase/functions/web-scraper/index.ts:93 | where no run of blanks straddles the seam, collapsing a concatenation collapses each part |
| DomParser.CollapseAppendBlankHead | supabase/functions/web-scraper/index.ts:93 | the same seam property when the first part starts with a blank run, which becomes the one leading `' '` |
| DomParser.CollapseWord | supabase/functions/web-scraper/index.ts:93 | a text without blanks is left as it is |
| DomParser.CollapseRun | supabase/functions/web-scraper/index.ts:93 | a non-empty run of `\s` characters becomes exactly one `' '` |
| DomParser.CollapseBetween | supabase/functions/web-scraper/index.ts:93 | a run of `\s` characters between a non-blank end and a non-blank start becomes exactly one `' '`, and each side collapses on its own |
| DomParser.PlainPageText | supabase/functions/web-scraper/index.ts:90-94 | on a page without `<`, `body.textContent` is the page with its blank runs collapsed, then trimmed |
| DomParser.TwoWordsCollapse | supabase/functions/web-scraper/index.ts:93 | two words with blanks between them collapse to the words joined by one `' '` |
| DomParser.PaddedTextCollapse | supabase/functions/web-scraper/index.ts:93-94 | blank padding around a text with non-blank ends is collapsed and then trimmed away |
| DomParser.PaddingTrims | supabase/functions/web-scraper/index.ts:94 | `trim` drops the single blanks that padding collapsed to |
| DomParser.TwoWordPage | supabase/functions/web-scraper/index.ts:90-94 | on a page of two words without `<`, however padded and separated, `body.textContent` is the two words joined by one `' '` |
| DomParser.NoTagPairAppend | supabase/functions/web-scraper/index.ts:92 | a concatenation has no `<` before a `>` exactly when neither part has and no `<` of the first precedes a `>` of the second |
| DomParser.ReplaceTagsLeavesNoPair | supabase/functions/web-scraper/index.ts:92 | after replacing every `<…>` token, no `<` is followed by a `>` |
| DomParser.TrimStartKeeps | supabase/functions/web-scraper/index.ts:94 | `trimStart` keeps every non-blank character |
| DomParser.CollapseKeeps | supabase/functions/web-scraper/index.ts:93 | collapsing blanks keeps every non-blank character |
| DomParser.CollapseKeepsNoTagPair | supabase/functions/web-scraper/index.ts:93 | collapsing blanks leaves no `<` before a `>` where there was none |
| DomParser.NoTagPairSlice | supabase/functions/web-scraper/index.ts:94 | a slice of a tag-free text is tag-free |
| DomParser.SingleBlanksSlice | supabase/functions/web-scraper/index.ts:94 | a slice of a single-blank text is single-blank |
| DomParser.TrimCollapsedIsNormalised | supabase/functions/web-scraper/index.ts:92-94 | trimming a collapsed, tag-free text gives non-blank ends, single blanks and no tag |
| DomParser.VisibleAppend | supabase/functions/web-scraper/index.ts:93-94 | the word characters of a concatenation are those of its parts, in order |
| DomParser.TrimStartKeepsVisible | supabase/functions/web-scraper/index.ts:94 | `trimStart` keeps every word character, in order |
| DomParser.TrimEndKeepsVisible | supabase/functions/web-scraper/index.ts:94 | `trimEnd` keeps every word character, in order |
| DomParser.CollapseKeepsVisible | supabase/functions/web-scraper/index.ts:93 | collapsing blanks keeps every word character, in order, and adds none |
| DomParser.PlainPageKeepsWordsInOrder | supabase/functions/web-scraper/index.ts:90-95 | on a page without `<`, `body.textContent` holds exactly the page's non-blank characters, in their order |
| DomParser.TextContentNormalised | supabase/functions/web-scraper/index.ts:90-95 | `body.textContent` has non-blank ends, only single `' '` blanks and no `<` followed by `>` |
| DomParser.UnclosedScriptAndStyleKept | supabase/functions/web-scraper/index.ts:25-26 | with no closing script or style tag anywhere, the strip leaves the page unchanged |
| DomParser.NoMarkupWithoutAngle | supabase/functions/web-scraper/index.ts:25-26 | neither a script element, a style element nor the `<…>` token of line 92 starts where there is no `<` |
| DomParser.ClosedScriptMatches | supabase/functions/web-scraper/index.ts:25 | an opening script tag in any case, a text without `<` that ends the tag name, and a closing tag in any case form one match, from the `<` to the end of the closing tag |
| DomParser.ClosedScriptPass | supabase/functions/web-scraper/index.ts:25 | the script pass removes such an element between texts without `<`, and nothing else |
| DomParser.PlainTextUntouched | supabase/functions/web-scraper/index.ts:25-26 | the script pass, the style pass and the tag pass of line 92 each keep a text without `<` unchanged |
| DomParser.ClosedScriptRemoved | supabase/functions/web-scraper/index.ts:25-26 | the strip removes a closed script element between texts without `<` and keeps the rest |
| DomParser.StripExample | supabase/functions/web-scraper/index.ts:25-26 | `a<SCRIPT x>y</script>b` strips to `ab` |
| DomParser.Exec | supabase/functions/web-scraper/index.ts:35 | the position scan of one `exec` returns the leftmost match from `lastIndex` |
| DomParser.MapCapturesStep | supabase/functions/web-scraper/index.ts:35-36 | one round of the `exec` loop contributes the element of the match at `lastIndex`, then the loop goes on from that match's end |
| DomParser.ExecEach | supabase/functions/web-scraper/index.ts:35-37 | the `while ((match = re.exec(html)) !== null)` loop pushes one element per match, in order |
| DomParser.ExecNonEmpty | supabase/functions/web-scraper/index.ts:77-80 | the heading loop pushes the cleaned text of each match, skipping empty ones |
| DomParser.SelectQuoteTexts | supabase/functions/web-scraper/index.ts:32-38 | `span.text` yields each quote capture with `&quot;` and `&#39;` decoded, in document order |
| DomParser.SelectAuthorTexts | supabase/functions/web-scraper/index.ts:40-46 | `small.author` yields each author capture verbatim, in document order |
| DomParser.SelectTagLinks | supabase/functions/web-scraper/index.ts:53-58 | the inner loop yields the content of each tag link of a container |
| DomParser.ExecTagContainers | supabase/functions/web-scraper/index.ts:48-63 | the outer loop yields one tag list per container, built by the inner loop |
| DomParser.SelectTagContainers | supabase/functions/web-scraper/index.ts:48-63 | `div.tags` yields one tag list per tag container, in document order |
| DomParser.SelectHeadings | supabase/functions/web-scraper/index.ts:73-85 | `h1, h2` yields the non-empty cleaned `h1` texts, then the non-empty cleaned `h2` texts |
| DomParser.MatchBinding.constructor | supabase/functions/web-scraper/index.ts:67 | the shared `let match` starts unset |
| DomParser.GetAttribute | supabase/functions/web-scraper/index.ts:69 | `getAttribute` fails exactly when the binding it reads is null, and otherwise returns that match's capture |
| DomParser.ExecSharedBinding | supabase/functions/web-scraper/index.ts:65-71 | the loop as written: one element per match, all closing over the one binding, which holds null when the loop ends |
| DomParser.SelectAnchors | supabase/functions/web-scraper/index.ts:65-71 | as written: one element per anchor match, all reading the one binding, which the loop leaves null |
| DomParser.ExecOwnBindings | supabase/functions/web-scraper/index.ts:65-71 | a loop that gives each element its own binding holding its own match |
| DomParser.SelectAnchorsIntended | supabase/functions/web-scraper/index.ts:65-71 | corrected: one element per anchor match, the k-th reading the k-th match |
| DomParser.NoAmpersandNoEntity | supabase/functions/web-scraper/index.ts:36 | an entity literal cannot match in text without `&` |
| DomParser.DecodeWithoutAmpersandIsIdentity | supabase/functions/web-scraper/index.ts:36 | entity decoding leaves text without `&` unchanged |
| DomParser.QuotDecoded | supabase/functions/web-scraper/index.ts:36 | `&quot;` after a text without `&` becomes a double quote, and decoding goes on after it |
| DomParser.QuotPassSkipsApos | supabase/functions/web-scraper/index.ts:36 | the `&quot;` replacement leaves an `&#39;` that follows a text without `&` where it is, and replaces only in what comes after it |
| DomParser.AposDecoded | supabase/functions/web-scraper/index.ts:36 | `&#39;` after a text without `&` becomes an apostrophe, and decoding goes on after it |
| DomParser.DecodedHoldsNoEntity | supabase/functions/web-scraper/index.ts:36 | a decoded quote text holds neither `&quot;` nor `&#39;` |
| DomParser.DecodeExample | supabase/functions/web-scraper/index.ts:36 | `He said &quot;hi&#39;` decodes to `He said "hi'` |
| DomParser.TrimKeepsNoTagPair | supabase/functions/web-scraper/index.ts:78 | trimming keeps a text tag-free |
| DomParser.HeadingTextIsClean | supabase/functions/web-scraper/index.ts:78 | a cleaned heading text is trimmed and holds no `<` followed by `>` |
| DomParser.AnchorsFoundIffSomeMatch | supabase/functions/web-scraper/index.ts:66-68 | the anchor loop pushes something exactly when the anchor expression matches somewhere |
| Scraper.TrimAll | supabase/functions/web-scraper/index.ts:127 | the map keeps one text per element |
| Scraper.TrimAllAt | supabase/functions/web-scraper/index.ts:127 | the k-th text of the map is the k-th text trimmed |
| Scraper.HeadingsViewKeepsCleanTexts | supabase/functions/web-scraper/index.ts:126-128 | the trim-and-filter chain returns already clean headings unchanged |
| Scraper.SelectedHeadingsAreClean | supabase/functions/web-scraper/index.ts:77-84 | every selected heading text is non-empty, trimmed and tag-free |
| Scraper.HrefsFailIffNullBinding | supabase/functions/web-scraper/index.ts:133-134 | reading every `href` fails exactly when some element's binding is null, and with the null-read error |
| Scraper.HrefsOfOwnBindings | supabase/functions/web-scraper/index.ts:134 | elements holding their own matches read back those matches' captures |
| Scraper.LinksView | supabase/functions/web-scraper/index.ts:131-136 | the links chain fails with the first failed read, otherwise returns the non-empty `href` values |
| Scraper.ScrapeLinks | supabase/functions/web-scraper/index.ts:131-136 | as written: the links mode fails with the null read whenever some anchor matched, else returns no link |
| Scraper.ScrapeLinksIntended | supabase/functions/web-scraper/index.ts:131-136 | corrected: the links mode returns the non-empty `href` captures in document order |
| Scraper.LinksFailWheneverAnAnchorMatches | supabase/functions/web-scraper/index.ts:65-71 | as written, the links mode fails exactly when the anchor expression matches somewhere, and otherwise returns no link |
| Scraper.LinksIntendedReportsEveryHref | supabase/functions/web-scraper/index.ts:133-135 | corrected, every non-empty `href` capture is reported and every reported value is one |
| Scraper.CorrectionAgreesWhereWrittenSucceeds | supabase/functions/web-scraper/index.ts:131-136 | where the written links mode succeeds, the corrected mode returns the same |
| Scraper.OneAnchorMatches | supabase/functions/web-scraper/index.ts:66 | the anchor expression matches `<a href="x">` at its start and captures `x` |
| Scraper.OneAnchorShowsTheDefect | supabase/functions/web-scraper/index.ts:65-71 | on `<a href="x">` the written links mode throws the null read, where the corrected one lists `x` |
| Scraper.AuthorAt | supabase/functions/web-scraper/index.ts:147 | the author of a quote is never empty |
| Scraper.BuildRecord | supabase/functions/web-scraper/index.ts:146-156 | the body of the `for` loop yields the record of the i-th quote: its trimmed text, the i-th author trimmed or `Unknown` when that author is missing or blank, and the trimmed tag texts of the i-th container or none |
| Scraper.AssembleQuotes | supabase/functions/web-scraper/index.ts:143-159 | the `for` loop builds the records of the quote assembly |
| Scraper.QuoteRecordAtShape | supabase/functions/web-scraper/index.ts:146-155 | the quote is the i-th quote text trimmed; the author is the i-th author trimmed when that is non-empty and `Unknown` otherwise (also past the last author); no tags past the last container, otherwise the i-th container's tag texts, each trimmed, in order |
| Scraper.QuoteRecordsArePairedByPosition | supabase/functions/web-scraper/index.ts:145-157 | one record per quote; the i-th record's quote is the i-th quote trimmed, its author the i-th author trimmed or `Unknown` when that is missing or empty, and its tags the i-th container's tag texts trimmed, or none past the last container |
| Scraper.ScrapeWebsite | supabase/functions/web-scraper/index.ts:101-165 | `scrapeWebsite` fails on a rejected fetch or a non-2xx status, then dispatches on the five modes and throws for any other |
| Scraper.FetchFailureWinsOverScrapeType | supabase/functions/web-scraper/index.ts:102-110 | a failed or non-2xx fetch decides the outcome whatever the scrape type |
| Scraper.InvalidScrapeTypeIffUnknown | supabase/functions/web-scraper/index.ts:162-163 | after a 2xx fetch the type is refused exactly when it is not one of the five modes |
| Scraper.MarkupAndTextModes | supabase/functions/web-scraper/index.ts:117-122 | `html` returns the page unchanged; `text` returns normalised body text |
| Scraper.HeadingsModeReturnsSelection | supabase/functions/web-scraper/index.ts:124-129 | `headings` returns the selector's texts, each non-empty, trimmed and tag-free |
| Scraper.LinksModeFailsIffAnchorFound | supabase/functions/web-scraper/index.ts:131-136 | after a 2xx fetch, `links` fails exactly when an anchor matched, with the null-read error; otherwise it returns an empty list |
| Scraper.QuotesModeCountsQuoteSpans | supabase/functions/web-scraper/index.ts:138-160 | `quotes` succeeds with one record per quote span |
| Handler.HandleScrape | supabase/functions/web-scraper/index.ts:184-212 | the handler's steps reach the reply the outcome decision describes |
| Handler.SuccessIffHeadOkAndScrapeResolves | supabase/functions/web-scraper/index.ts:194-212 | a run is a success exactly when HEAD answered 200 and the scrape resolved; success carries data, error carries a message |
| Handler.StatusCodeIsHeadStatus | supabase/functions/web-scraper/index.ts:200-211 | the recorded status code is the HEAD status, or 0 when HEAD itself failed |
| Handler.PageFetchIgnoredUnlessHeadOk | supabase/functions/web-scraper/index.ts:200-207 | without a 200 HEAD the page fetch cannot change the outcome |
| Handler.UnknownScrapeTypeReportedLast | supabase/functions/web-scraper/index.ts:199-210 | an unknown scrape type is reported exactly when HEAD gave 200 and the page fetch returned 2xx |
| EmailPattern.ScanToMeaning | src/components/SignUp.tsx:81 | each flag of the scanner's state means what its comment says about the prefix read |
| EmailPattern.EmailLikeIffShortMatch | src/components/SignUp.tsx:81 | a string holds X@Y.Z exactly when it holds the shortest such match |
| EmailPattern.TestIffEmailLike | src/components/SignIn.tsx:50 | the one-pass scanner accepts exactly the strings that contain X@Y.Z with X, Y, Z non-empty and blank-free |
| EmailPattern.SurroundingTextKeepsEmailLike | src/components/ForgotPassword.tsx:25 | the pattern is unanchored: adding text around an accepted string keeps it accepted |
| EmailPattern.EmailLikeNeedsAtThenDot | src/components/ForgotPassword.tsx:25 | an accepted string has five or more characters and an `@` followed later by a `.` |
| EmailPattern.PaddedAddressPasses | src/components/SignUp.tsx:81 | an untrimmed, padded address and one with words around it pass |
| EmailPattern.BlankAfterAtFails | src/components/SignIn.tsx:50 | a blank right after the only `@` makes the test fail |
| FormErrors.ClearField | src/components/SignUp.tsx:138-140 | the change handler's reset hides that field's error, keeps the keys, and leaves every other field's entry |
| SignUpForm.Set | src/components/SignUp.tsx:136 | the named key takes the new value and every other key keeps its own |
| SignUpForm.ContainsClassIffHasChar | src/components/SignUp.tsx:62-65 | each `/[…]/.test` holds exactly when some character is in the class |
| SignUpForm.AllRequirementsMetIff | src/components/SignUp.tsx:60-68 | all requirements are met exactly for 8+ characters with an upper-case letter, a lower-case letter, a digit and a special character |
| SignUpForm.Step1Errors | src/components/SignUp.tsx:70-85 | step 1 errors: name when the trimmed name is shorter than 2 (required when empty), e-mail when empty (required) or failing the pattern (invalid), nothing else |
| SignUpForm.Step2Errors | src/components/SignUp.tsx:89-108 | step 2 errors: password when empty (required) or weak, confirmation when empty (required) or different, the flag when terms are unaccepted, nothing else |
| SignUpForm.Step1PassesIff | src/components/SignUp.tsx:73-86 | step 1 passes exactly when the trimmed name has 2+ characters and the untrimmed e-mail passes the pattern |
| SignUpForm.Step2PassesIff | src/components/SignUp.tsx:92-109 | step 2 passes exactly when all requirements are met, the confirmation repeats the password and the terms are accepted |
| SignUpForm.ValidateStep1 | src/components/SignUp.tsx:70-87 | `validateStep1` stores the step 1 errors and returns true exactly when there are none |
| SignUpForm.ValidateStep2 | src/components/SignUp.tsx:89-110 | `validateStep2` stores the step 2 errors and returns true exactly when there are none |
| SignUpForm.HandleNext | src/components/SignUp.tsx:112-116 | `handleNext` stores the step 1 errors and moves to step 2 exactly when step 1 passes |
| SignUpForm.HandleBack | src/components/SignUp.tsx:118-120 | `handleBack` shows step 1 and changes nothing else |
| SignUpForm.HandleChange | src/components/SignUp.tsx:135-144 | `handleChange` sets only the named field, hides that field's error, keeps the others, and clears the sign-up error |
| SignUpForm.HandleSubmit | src/components/SignUp.tsx:122-133 | `signUp` is called, with e-mail, password and name, exactly when step 2 passes; resolved closes the dialog, rejected shows the message or `Sign up failed` |
| SignUpForm.SubmitGateAgreesWithStep2 | src/components/SignUp.tsx:432 | a form passing step 2 leaves the button enabled unless loading; with the button enabled, step 2 turns only on the confirmation |
| SignInForm.Set | src/components/SignIn.tsx:76 | the named key takes the new value and every other key keeps its own |
| SignInForm.FormErrorsOf | src/components/SignIn.tsx:45-58 | e-mail error when empty (required) or failing the pattern (invalid), password error only when empty, nothing else |
| SignInForm.FormPassesIff | src/components/SignIn.tsx:48-59 | the form passes exactly when the e-mail passes the pattern and the password is non-empty |
| SignInForm.ValidateForm | src/components/SignIn.tsx:45-60 | `validateForm` stores the errors and returns true exactly when the e-mail passes and the password is non-empty |
| SignInForm.HandleSubmit | src/components/SignIn.tsx:62-73 | `signIn` is called with the three values exactly when the form validates; resolved closes, rejected shows the message or `Sign in failed` |
| SignInForm.HandleChange | src/components/SignIn.tsx:75-84 | `handleChange` sets only the named field, hides that field's error, keeps the others, and clears the sign-in error |
| ForgotPasswordForm.HandleSubmit | src/components/ForgotPassword.tsx:17-36 | empty e-mail: required; failing the pattern: invalid; both return before the call; `forgotPassword` is called exactly for accepted e-mails; success sets `isSubmitted`, rejection shows the failure message |
| ForgotPasswordForm.OnChange | src/components/ForgotPassword.tsx:120-123 | editing the e-mail stores it and always clears the error |
| ForgotPasswordForm.EmptyEmailNeverReachesTheCall | src/components/ForgotPassword.tsx:20-23 | an empty e-mail never passes the pattern, so it never reaches `forgotPassword` |

## Left out

- HTTP plumbing of the edge function is not modelled: `Deno.serve`, the `OPTIONS` reply, CORS headers, `req.json()`, the User-Agent header and the two `fetch` calls. The fetch outcomes are parameters: a status with a body, or a rejection with its message.
- The Supabase client and the history insert and response (index.ts:176-179, 214-254) are not modelled. They are persistence through a foreign client.
- `response.text()` failing after a 2xx status is not modelled. The body is taken as given.
- A thrown value that is not an `Error` (the 'Unknown error occurred' branch, index.ts:210) cannot arise in the modelled steps. Every failure they raise is an `Error`.
- A request body whose `url` or `scrapeType` is a non-string JSON value is not modelled. The fields are optional strings.
- Strings are sequences of `char`. JavaScript's UTF-16 code units and surrogate pairs are not modelled.
- JsText.Lower: folds ASCII letters only. Without the `u` flag, JavaScript folds case by upper-casing, which also pairs some non-ASCII letters, but it never folds a non-ASCII character onto an ASCII one. Every literal matched under the `i` flag (`<script`, `</script>`, `<style`, `</style>`, `<a`, `href="`) is ASCII, so the matches are the same.
- React itself is not modelled: hooks, rendering, the show-password toggles and the dialog callbacks (`onClose`, `onSignIn`). A dialog closing is reported as a boolean.
- `isLoading` is an input to the button guard.
- The mock authentication provider, the app shell, the result and history views, the scraper form and the Python console script are not part of this model.
- SignUpForm.HandleChange: requires that a text field receive text and a checkbox a boolean, which every call site in the forms does. The loose TypeScript signature would also accept a mismatched value.
- SignInForm.HandleChange: the same requirement as the sign-up change handler.
- DomParser.ClosedScriptRemoved: requires the text inside the element to hold no `<`; the expression itself also accepts a `<` that does not start `</script>`.
- DomParser.SelectAnchors: states the number of elements and the shared null binding, not their order, since every element reads the same binding.
- Scraper.QuotesModeCountsQuoteSpans: states the count of records only; their contents are stated by `Scraper.QuoteRecordAtShape` and `Scraper.QuoteRecordsArePairedByPosition`.

## Findings

| source | as written | input that shows it | evidently intended | confidence | as-written member | corrected member |
|---|---|---|---|---|---|---|
| supabase/functions/web-scraper/index.ts:65-71 | every `getAttribute` closure reads the loop's shared `match`, which is `null` when the loop ends, so reading `match[1]` throws a `TypeError` | the `links` mode on the page `<a href="x">` fails with "Cannot read properties of null (reading '1')" (`Scraper.OneAnchorShowsTheDefect`) | each element returns its own anchor's `href` capture, and the mode lists the non-empty ones in document order | not executed | Scraper.ScrapeLinks | Scraper.ScrapeLinksIntended |
