/**
 * The hand-rolled `DOMParser` of the web-scraper edge function
 * (supabase/functions/web-scraper/index.ts:21-99): the script/style strip and
 * `body.textContent` pipeline, and the `exec` loops behind each selector
 * `querySelectorAll` understands. Every selector scans the ORIGINAL page
 * text; only `body.textContent` sees the stripped text.
 */
module DomParser {
  import opened Wrappers
  import opened JsText
  import opened Patterns
  import opened Failures

  // ---------------------------------------------------------------------------
  // Plain text: strip scripts and styles, blank out tags, collapse whitespace.

  /** The text `parseFromString` keeps for `body.textContent`: every script
      element removed, then every style element of what is left. */
  function StripScriptsAndStyles(html: string): string {
    Replace(StyleBlock, Replace(ScriptBlock, html, ""), "")
  }

  /** `s.replace(/\s+/g, ' ')`: every run of `\s` characters becomes one blank. */
  function CollapseSpaces(s: string): (r: string)
    decreases |s|
    ensures |r| == 0 <==> |s| == 0
    ensures |r| > 0 ==> (IsSpace(r[0]) <==> IsSpace(s[0]))
    ensures SingleBlanks(r)
  {
    if s == [] then []
    else if IsSpace(s[0]) then
      TrimStartDropsLeadingSpace(s);
      var rest := TrimStart(s);
      assert |rest| < |s|;
      [' '] + CollapseSpaces(rest)
    else [s[0]] + CollapseSpaces(s[1..])
  }

  /** `body.textContent`: tags of the stripped text replaced by a blank, runs of
      whitespace collapsed, the ends trimmed. */
  function BodyText(html: string): string {
    Trim(CollapseSpaces(Replace(TagToken, StripScriptsAndStyles(html), " ")))
  }

  /** No `<` is followed, anywhere later, by a `>`: no `<…>` token is left.
      A lone `<` or `>` may remain. */
  predicate NoTagPair(s: string) {
    forall i, j | 0 <= i < j < |s| :: s[i] == '<' ==> s[j] != '>'
  }

  lemma NoTagPairAppend(a: string, b: string)
    ensures NoTagPair(a + b) <==> NoTagPair(a) && NoTagPair(b) && !('<' in a && '>' in b)
  {
    var ab := a + b;
    if NoTagPair(a) && NoTagPair(b) && !('<' in a && '>' in b) {
      forall i, j | 0 <= i < j < |ab| && ab[i] == '<' ensures ab[j] != '>' {
        if j < |a| {
          assert ab[i] == a[i] && ab[j] == a[j];
        } else if i >= |a| {
          assert ab[i] == b[i - |a|] && ab[j] == b[j - |a|];
        } else {
          assert ab[i] == a[i] && ab[j] == b[j - |a|];
        }
      }
    }
    if NoTagPair(ab) {
      forall i, j | 0 <= i < j < |a| && a[i] == '<' ensures a[j] != '>' {
        assert ab[i] == a[i] && ab[j] == a[j];
      }
      forall i, j | 0 <= i < j < |b| && b[i] == '<' ensures b[j] != '>' {
        assert ab[|a| + i] == b[i] && ab[|a| + j] == b[j];
      }
      forall i, j | 0 <= i < |a| && 0 <= j < |b| && a[i] == '<' ensures b[j] != '>' {
        assert ab[i] == a[i] && ab[|a| + j] == b[j];
      }
    }
  }

  /** Replacing every `<…>` token by a text without `<` leaves no token: the
      text before the first token holds no `<` (or that `<` would start the
      leftmost token), and after the last token no `<` has a `>` behind it. */
  lemma {:induction false} ReplaceTagsLeavesNoPair(s: string, p: nat, rep: string)
    requires p <= |s| && '<' !in rep
    decreases |s| - p
    ensures NoTagPair(ReplaceFrom(Expr(TagToken), s, p, rep))
  {
    var token := Expr(TagToken);
    match FirstMatch(token, s, p)
    case None =>
      var tail := s[p..];
      forall i, j | 0 <= i < j < |tail| && tail[i] == '<' ensures tail[j] != '>' {
        assert token(s, p + i).None?;
        assert s[p + j] == tail[j];
      }
    case Some(m) =>
      ReplaceTagsLeavesNoPair(s, m.end, rep);
      var gap := s[p..m.start];
      assert TagTokenAt(s, m.start).Some?;
      forall k | 0 <= k < |gap| ensures gap[k] != '<' {
        assert token(s, p + k).None?;
        assert s[m.end - 1] == '>';
      }
      NoTagPairAppend(gap + rep, ReplaceFrom(token, s, m.end, rep));
  }

  /** `trimStart` keeps every character that is not whitespace. */
  lemma TrimStartKeeps(s: string, c: char)
    requires !IsSpace(c)
    ensures (c in TrimStart(s)) == (c in s)
  {
    var t := TrimStart(s);
    TrimStartDropsLeadingSpace(s);
    var n := |s| - |t|;
    if c in s {
      var k :| 0 <= k < |s| && s[k] == c;
      assert !IsSpace(s[k]);
      assert k >= n;
      assert t[k - n] == s[k];
    }
    if c in t {
      var k :| 0 <= k < |t| && t[k] == c;
      assert t[k] == s[n + k];
    }
  }

  /** Collapsing whitespace keeps every other character. */
  lemma {:induction false} CollapseKeeps(s: string, c: char)
    requires !IsSpace(c)
    decreases |s|
    ensures (c in CollapseSpaces(s)) == (c in s)
  {
    if s == [] {
    } else if IsSpace(s[0]) {
      TrimStartDropsLeadingSpace(s);
      CollapseKeeps(TrimStart(s), c);
      TrimStartKeeps(s, c);
    } else {
      CollapseKeeps(s[1..], c);
      assert s == [s[0]] + s[1..];
    }
  }

  /** The characters `textContent` shows as words: every non-`\s` character,
      in order. */
  function Visible(s: string): (r: string)
    ensures |r| <= |s|
  {
    if s == [] then []
    else (if IsSpace(s[0]) then [] else [s[0]]) + Visible(s[1..])
  }

  /** The words of a concatenation are the words of its parts. */
  lemma {:induction false} VisibleAppend(a: string, b: string)
    ensures Visible(a + b) == Visible(a) + Visible(b)
  {
    if a == [] {
      assert a + b == b;
    } else {
      assert (a + b)[0] == a[0] && (a + b)[1..] == a[1..] + b;
      VisibleAppend(a[1..], b);
    }
  }

  /** `trimStart` keeps every word character, in order. */
  lemma {:induction false} TrimStartKeepsVisible(s: string)
    decreases |s|
    ensures Visible(TrimStart(s)) == Visible(s)
  {
    if s != [] && IsSpace(s[0]) {
      TrimStartKeepsVisible(s[1..]);
    }
  }

  /** `trimEnd` keeps every word character, in order. */
  lemma {:induction false} TrimEndKeepsVisible(s: string)
    decreases |s|
    ensures Visible(TrimEnd(s)) == Visible(s)
  {
    if s != [] && IsSpace(s[|s| - 1]) {
      var init := s[..|s| - 1];
      TrimEndKeepsVisible(init);
      assert s == init + [s[|s| - 1]];
      VisibleAppend(init, [s[|s| - 1]]);
      assert Visible([s[|s| - 1]]) == [];
    }
  }

  /** Collapsing whitespace keeps every word character, in order. */
  lemma {:induction false} CollapseKeepsVisible(s: string)
    decreases |s|
    ensures Visible(CollapseSpaces(s)) == Visible(s)
  {
    if s == [] {
    } else if IsSpace(s[0]) {
      TrimStartDropsLeadingSpace(s);
      var rest := TrimStart(s);
      CollapseKeepsVisible(rest);
      TrimStartKeepsVisible(s);
      assert ([' '] + CollapseSpaces(rest))[1..] == CollapseSpaces(rest);
    } else {
      CollapseKeepsVisible(s[1..]);
      assert ([s[0]] + CollapseSpaces(s[1..]))[1..] == CollapseSpaces(s[1..]);
    }
  }

  /** Collapsing works piece by piece wherever the cut does not fall inside a
      run of `\s` characters. */
  lemma {:induction false} CollapseAppend(a: string, b: string)
    requires a == [] || b == [] || !IsSpace(a[|a| - 1]) || !IsSpace(b[0])
    decreases |a|, 1
    ensures CollapseSpaces(a + b) == CollapseSpaces(a) + CollapseSpaces(b)
  {
    if a == [] {
      assert a + b == b;
    } else if IsSpace(a[0]) {
      CollapseAppendBlankHead(a, b);
    } else {
      assert (a + b)[0] == a[0] && (a + b)[1..] == a[1..] + b;
      assert a[1..] == [] || a[1..][|a[1..]| - 1] == a[|a| - 1];
      CollapseAppend(a[1..], b);
      AppendAssoc([a[0]], CollapseSpaces(a[1..]), CollapseSpaces(b));
    }
  }

  /** `CollapseAppend` when the first part starts with a run of blanks: that
      run becomes the one `' '` in front of both. */
  lemma {:induction false} CollapseAppendBlankHead(a: string, b: string)
    requires a != [] && IsSpace(a[0])
    requires b == [] || !IsSpace(a[|a| - 1]) || !IsSpace(b[0])
    decreases |a|, 0
    ensures CollapseSpaces(a + b) == CollapseSpaces(a) + CollapseSpaces(b)
  {
    assert (a + b)[0] == a[0];
    TrimStartAppend(a, b);
    TrimStartDropsLeadingSpace(a);
    var t := TrimStart(a);
    assert CollapseSpaces(a) == [' '] + CollapseSpaces(t);
    assert CollapseSpaces(a + b) == [' '] + CollapseSpaces(TrimStart(a + b));
    if t == [] {
      assert IsSpace(a[|a| - 1]);
      assert b == [] || !IsSpace(b[0]);
      assert TrimStart(b) == b;
    } else {
      assert t[|t| - 1] == a[|a| - 1];
      CollapseAppend(t, b);
      AppendAssoc([' '], CollapseSpaces(t), CollapseSpaces(b));
    }
  }

  /** A text without `\s` is left as it is. */
  lemma {:induction false} CollapseWord(w: string)
    requires NoSpace(w)
    decreases |w|
    ensures CollapseSpaces(w) == w
  {
    if w != [] {
      assert !IsSpace(w[0]);
      forall k | 0 <= k < |w[1..]| ensures !IsSpace(w[1..][k]) {
        assert w[1..][k] == w[k + 1];
      }
      CollapseWord(w[1..]);
      assert w == [w[0]] + w[1..];
    }
  }

  /** A non-empty run of `\s` characters becomes one blank. */
  lemma CollapseRun(ws: string)
    requires ws != [] && forall k | 0 <= k < |ws| :: IsSpace(ws[k])
    ensures CollapseSpaces(ws) == " "
  {
    TrimBlank(ws);
  }

  /** A run of `\s` between two words becomes exactly one blank: it neither
      vanishes nor stays longer. With `CollapseWord` and `CollapseRun` this
      fixes the result on every text, which is a sequence of such runs. */
  lemma CollapseBetween(a: string, ws: string, b: string)
    requires a == [] || !IsSpace(a[|a| - 1])
    requires ws != [] && forall k | 0 <= k < |ws| :: IsSpace(ws[k])
    requires b == [] || !IsSpace(b[0])
    ensures CollapseSpaces(a + ws + b) == CollapseSpaces(a) + " " + CollapseSpaces(b)
  {
    CollapseAppend(a, ws);
    CollapseRun(ws);
    assert (a + ws)[|a + ws| - 1] == ws[|ws| - 1];
    CollapseAppend(a + ws, b);
  }

  /** On a page without `<`, `body.textContent` is the page with its runs
      of whitespace collapsed and its ends trimmed. */
  lemma PlainPageText(html: string)
    requires '<' !in html
    ensures BodyText(html) == Trim(CollapseSpaces(html))
  {
    PlainTextUntouched(html, ScriptBlock, "");
    PlainTextUntouched(html, StyleBlock, "");
    PlainTextUntouched(html, TagToken, " ");
  }

  /** Two words with whitespace between them collapse to the two words with
      one blank between them. */
  lemma TwoWordsCollapse(w1: string, ws: string, w2: string) returns (words: string, inner: string)
    requires w1 != [] && NoSpace(w1) && w2 != [] && NoSpace(w2)
    requires ws != [] && forall k | 0 <= k < |ws| :: IsSpace(ws[k])
    ensures words == w1 + ws + w2 && inner == w1 + " " + w2
    ensures CollapseSpaces(words) == inner
    ensures words != [] && !IsSpace(words[0]) && !IsSpace(words[|words| - 1])
    ensures inner != [] && !IsSpace(inner[0]) && !IsSpace(inner[|inner| - 1])
  {
    words := w1 + ws + w2;
    inner := w1 + " " + w2;
    CollapseBetween(w1, ws, w2);
    CollapseWord(w1);
    CollapseWord(w2);
    assert words[|words| - 1] == w2[|w2| - 1] && words[0] == w1[0];
    assert inner[|inner| - 1] == w2[|w2| - 1] && inner[0] == w1[0];
  }

  /** The last character of a concatenation with a non-empty second part. */
  lemma LastOfAppend(a: string, b: string)
    requires b != []
    ensures (a + b)[|a + b| - 1] == b[|b| - 1]
  {
  }

  /** On a page of two words without markup, `body.textContent` is the two
      words with one blank between them, however much whitespace stood
      around and between them. */
  lemma TwoWordPage(pad: string, w1: string, ws: string, w2: string, end: string)
    requires w1 != [] && NoSpace(w1) && w2 != [] && NoSpace(w2)
    requires ws != [] && forall k | 0 <= k < |ws| :: IsSpace(ws[k])
    requires forall k | 0 <= k < |pad| :: IsSpace(pad[k])
    requires forall k | 0 <= k < |end| :: IsSpace(end[k])
    requires '<' !in pad + (w1 + ws + w2) + end
    ensures BodyText(pad + (w1 + ws + w2) + end) == w1 + " " + w2
  {
    var words, inner := TwoWordsCollapse(w1, ws, w2);
    PlainPageText(pad + words + end);
    PaddedTextCollapse(pad, words, end, inner);
  }

  /** A text with non-blank ends, padded with whitespace, collapses and trims
      to what the text alone collapses to. */
  lemma PaddedTextCollapse(pad: string, words: string, end: string, inner: string)
    requires words != [] && !IsSpace(words[0]) && !IsSpace(words[|words| - 1])
    requires CollapseSpaces(words) == inner
    requires inner != [] && !IsSpace(inner[0]) && !IsSpace(inner[|inner| - 1])
    requires forall k | 0 <= k < |pad| :: IsSpace(pad[k])
    requires forall k | 0 <= k < |end| :: IsSpace(end[k])
    ensures Trim(CollapseSpaces(pad + words + end)) == inner
  {
    CollapseAppend(pad, words);
    LastOfAppend(pad, words);
    CollapseAppend(pad + words, end);
    PaddingTrims(CollapseSpaces(pad), inner, CollapseSpaces(end), pad, end);
  }

  /** Trimming drops what collapsing made of blank padding on either side of
      a text with non-blank ends. */
  lemma PaddingTrims(padded: string, inner: string, ended: string, pad: string, end: string)
    requires forall k | 0 <= k < |pad| :: IsSpace(pad[k])
    requires forall k | 0 <= k < |end| :: IsSpace(end[k])
    requires padded == CollapseSpaces(pad) && ended == CollapseSpaces(end)
    requires inner != [] && !IsSpace(inner[0]) && !IsSpace(inner[|inner| - 1])
    ensures Trim(padded + inner + ended) == inner
  {
    if pad != [] {
      CollapseRun(pad);
    }
    if end != [] {
      CollapseRun(end);
    }
    TrimBlank(padded);
    TrimBlank(ended);
    AppendAssoc(padded, inner, ended);
    TrimStartAppend(padded, inner + ended);
    assert TrimStart(inner + ended) == inner + ended by {
      assert (inner + ended)[0] == inner[0];
    }
    TrimEndAppend(inner, ended);
  }

  /** Collapsing whitespace creates no `<…>` token. */
  lemma {:induction false} CollapseKeepsNoTagPair(s: string)
    requires NoTagPair(s)
    decreases |s|
    ensures NoTagPair(CollapseSpaces(s))
  {
    if s == [] {
    } else if IsSpace(s[0]) {
      var rest := TrimStart(s);
      TrimStartDropsLeadingSpace(s);
      assert s == s[..|s| - |rest|] + rest;
      NoTagPairAppend(s[..|s| - |rest|], rest);
      CollapseKeepsNoTagPair(rest);
      NoTagPairAppend([' '], CollapseSpaces(rest));
    } else {
      assert s == [s[0]] + s[1..];
      NoTagPairAppend([s[0]], s[1..]);
      CollapseKeepsNoTagPair(s[1..]);
      CollapseKeeps(s[1..], '>');
      NoTagPairAppend([s[0]], CollapseSpaces(s[1..]));
    }
  }

  /** Whitespace only as single blanks between other characters, and no tag. */
  predicate Normalised(t: string) {
    && (t != [] ==> !IsSpace(t[0]) && !IsSpace(t[|t| - 1]))
    && SingleBlanks(t)
    && NoTagPair(t)
  }

  /** A slice of a text without tags has none either. */
  lemma NoTagPairSlice(c: string, a: nat, b: nat)
    requires a <= b <= |c| && NoTagPair(c)
    ensures NoTagPair(c[a..b])
  {
    var t := c[a..b];
    forall i, j | 0 <= i < j < |t| && t[i] == '<' ensures t[j] != '>' {
      assert t[i] == c[a + i] && t[j] == c[a + j];
    }
  }

  /** Every whitespace character a blank, never two in a row. */
  predicate SingleBlanks(c: string) {
    && (forall k | 0 <= k < |c| :: IsSpace(c[k]) ==> c[k] == ' ')
    && (forall k | 0 < k < |c| :: !(IsSpace(c[k - 1]) && IsSpace(c[k])))
  }

  /** A slice of a text of single blanks has single blanks. */
  lemma SingleBlanksSlice(c: string, a: nat, b: nat)
    requires a <= b <= |c| && SingleBlanks(c)
    ensures SingleBlanks(c[a..b])
  {
    var t := c[a..b];
    forall k | 0 <= k < |t| && IsSpace(t[k]) ensures t[k] == ' ' {
      assert t[k] == c[a + k];
    }
    forall k | 0 < k < |t| ensures !(IsSpace(t[k - 1]) && IsSpace(t[k])) {
      assert t[k - 1] == c[a + k - 1] && t[k] == c[a + k];
    }
  }

  /** Trimming a collapsed, tag-free text yields a normalised one. */
  lemma TrimCollapsedIsNormalised(c: string)
    requires SingleBlanks(c) && NoTagPair(c)
    ensures Normalised(Trim(c))
  {
    var a := TrimIsSlice(c);
    TrimEnds(c);
    NoTagPairSlice(c, a, a + |Trim(c)|);
    SingleBlanksSlice(c, a, a + |Trim(c)|);
  }

  /** `body.textContent` is normalised: no whitespace at either end, every
      whitespace character a single blank between two other characters, and
      no `<` with a `>` anywhere after it. */
  lemma TextContentNormalised(html: string)
    ensures Normalised(BodyText(html))
  {
    var stripped := StripScriptsAndStyles(html);
    var blanked := Replace(TagToken, stripped, " ");
    ReplaceTagsLeavesNoPair(stripped, 0, " ");
    CollapseKeepsNoTagPair(blanked);
    TrimCollapsedIsNormalised(CollapseSpaces(blanked));
  }

  /** On a page without markup, `body.textContent` shows every word
      character of the page, in order, and no other. */
  lemma PlainPageKeepsWordsInOrder(html: string)
    requires '<' !in html
    ensures Visible(BodyText(html)) == Visible(html)
  {
    PlainTextUntouched(html, ScriptBlock, "");
    PlainTextUntouched(html, StyleBlock, "");
    PlainTextUntouched(html, TagToken, " ");
    var collapsed := CollapseSpaces(html);
    CollapseKeepsVisible(html);
    TrimStartKeepsVisible(collapsed);
    TrimEndKeepsVisible(TrimStart(collapsed));
  }

  /** A page without any closing script or style tag keeps its text as is: an
      opening tag that is never closed is not removed. */
  lemma UnclosedScriptAndStyleKept(html: string)
    requires forall k | 0 <= k <= |html| :: !At(html, k, "</script>", true) && !At(html, k, "</style>", true)
    ensures StripScriptsAndStyles(html) == html
  {
    assert "</" + "script" + ">" == "</script>";
    assert "</" + "style" + ">" == "</style>";
    forall k | 0 <= k <= |html| ensures Expr(ScriptBlock)(html, k).None? {
      assert Expr(ScriptBlock)(html, k) == RawBlockAt(html, k, "script");
    }
    ReplaceWithoutMatchIsIdentity(Expr(ScriptBlock), html, "");
    forall k | 0 <= k <= |html| ensures Expr(StyleBlock)(html, k).None? {
      assert Expr(StyleBlock)(html, k) == RawBlockAt(html, k, "style");
    }
    ReplaceWithoutMatchIsIdentity(Expr(StyleBlock), html, "");
  }

  /** Neither a script element, a style element nor a `<…>` token starts at a
      position that does not hold `<`. */
  lemma NoMarkupWithoutAngle(s: string, k: nat, pat: Pattern)
    requires k <= |s| && (k < |s| ==> s[k] != '<')
    requires pat == ScriptBlock || pat == StyleBlock || pat == TagToken
    ensures Expr(pat)(s, k).None?
  {
    assert "<" + "script" == "<script";
    assert "<" + "style" == "<style";
    if k < |s| {
      assert Lower(s[k]) != "<script"[0] && Lower(s[k]) != "<style"[0];
    }
  }

  /** Nor does one start anywhere in a run of positions without `<`. */
  lemma PlainRunHoldsNoMarkup(s: string, p: nat, q: nat, pat: Pattern)
    requires p <= q <= |s| && (pat == ScriptBlock || pat == StyleBlock || pat == TagToken)
    requires '<' !in s[p..q]
    ensures forall k | p <= k < q :: Expr(pat)(s, k).None?
  {
    forall k | p <= k < q ensures Expr(pat)(s, k).None? {
      assert s[k] == s[p..q][k - p];
      NoMarkupWithoutAngle(s, k, pat);
    }
  }

  /** A text that begins with a literal in any case holds it, in any case,
      wherever it sits in a longer text. */
  lemma FoldedAtSlice(s: string, q: nat, t: string, lit: string)
    requires q + |t| <= |s| && s[q..q + |t|] == t && At(t, 0, lit, true)
    ensures At(s, q, lit, true)
  {
    forall k | 0 <= k < |lit| ensures Lower(s[q + k]) == lit[k] {
      assert s[q + k] == s[q..q + |t|][k];
    }
  }

  /** After a text without `<`, the first occurrence of a literal starting
      with `<` is one right after that text, when there is one. */
  lemma PlainRunThenLiteral(s: string, p: nat, q: nat, lit: string)
    requires p <= q <= |s| && '<' !in s[p..q]
    requires |lit| > 0 && lit[0] == '<' && At(s, q, lit, true)
    ensures FindFrom(s, lit, p, true) == Some(q)
  {
    forall k | p <= k < q ensures !At(s, k, lit, true) {
      assert s[k] == s[p..q][k - p];
      assert Lower(s[k]) != lit[0];
    }
    FindFromFirst(s, lit, p, q, true);
  }

  /** A raw-text element matches from an opening `<name` that the next
      character does not continue to the end of the first `</name>` after it. */
  lemma RawBlockAtClosing(s: string, i: nat, name: string, j: nat, e: nat)
    requires i + |name| + 1 <= |s| && |name| > 0 && e == j + |name| + 3
    requires At(s, i, "<" + name, true)
    requires i + |name| + 1 < |s| ==> !IsWordChar(s[i + |name| + 1])
    requires FindFrom(s, "</" + name + ">", i + |name| + 1, true) == Some(j)
    ensures RawBlockAt(s, i, name) == Some(Match(i, "", e))
  {
  }

  /** A raw-text element whose content holds no `<` is matched from its `<`
      to the end of the closing tag that follows the content. */
  lemma RawBlockWithPlainContent(s: string, i: nat, name: string, j: nat)
    requires |name| > 0 && i + |name| + 1 <= j <= |s|
    requires At(s, i, "<" + name, true) && At(s, j, "</" + name + ">", true)
    requires '<' !in s[i + |name| + 1..j]
    requires i + |name| + 1 < |s| ==> !IsWordChar(s[i + |name| + 1])
    ensures RawBlockAt(s, i, name) == Some(Match(i, "", j + |name| + 3))
  {
    assert ("</" + name + ">")[0] == '<';
    PlainRunThenLiteral(s, i + |name| + 1, j, "</" + name + ">");
    RawBlockAtClosing(s, i, name, j, j + |name| + 3);
  }

  /** The opening piece of a text that begins with a literal in any case
      holds it there. */
  lemma OpeningAt(pre: string, open: string, x: string, close: string, post: string, lit: string)
    requires At(open, 0, lit, true)
    ensures At(pre + open + x + close + post, |pre|, lit, true)
  {
    var s := pre + open + x + close + post;
    assert s == pre + open + (x + close + post);
    assert s[|pre|..|pre| + |open|] == open;
    FoldedAtSlice(s, |pre|, open, lit);
  }

  /** The closing piece of a text that begins with a literal in any case
      holds it there. */
  lemma ClosingAt(pre: string, open: string, x: string, close: string, post: string, lit: string, j: nat)
    requires At(close, 0, lit, true) && j == |pre| + |open| + |x|
    ensures At(pre + open + x + close + post, j, lit, true)
  {
    var s := pre + open + x + close + post;
    assert s == (pre + open + x) + close + post;
    assert s[j..j + |close|] == close;
    FoldedAtSlice(s, j, close, lit);
  }

  /** The content piece of a text made of five pieces. */
  lemma ContentPiece(pre: string, open: string, x: string, close: string, post: string, c: nat, j: nat)
    requires c == |pre| + |open| && j == c + |x|
    ensures var s := pre + open + x + close + post;
      j <= |s| && s[c..j] == x
  {
    var s := pre + open + x + close + post;
    assert s == (pre + open) + x + (close + post);
  }

  /** The character after the opening piece is the first of the content, or
      the first of the closing piece when the content is empty. */
  lemma CharAfterOpening(pre: string, open: string, x: string, close: string, post: string, c: nat)
    requires c == |pre| + |open| && |close| > 0
    ensures var s := pre + open + x + close + post;
      c < |s| && s[c] == if |x| > 0 then x[0] else close[0]
  {
    var s := pre + open + x + close + post;
    if |x| > 0 {
      assert s == (pre + open) + x + (close + post);
    } else {
      assert s == (pre + open + x) + close + post;
    }
  }

  /** A script element written as an opening tag in any case, a text without
      `<` that does not continue the tag name, and a closing tag in any case
      is matched from its `<` to the end of the closing tag. */
  lemma ClosedScriptMatches(a: string, open: string, x: string, close: string, b: string)
    requires '<' !in x
    requires |open| == 7 && At(open, 0, "<script", true)
    requires |close| == 9 && At(close, 0, "</script>", true)
    requires |x| > 0 ==> !IsWordChar(x[0])
    ensures var s := a + open + x + close + b;
      Expr(ScriptBlock)(s, |a|) == Some(Match(|a|, "", |a| + 16 + |x|))
  {
    var s := a + open + x + close + b;
    var c := |a| + 7;
    var j := c + |x|;
    assert "<" + "script" == "<script";
    assert "</" + "script" + ">" == "</script>";
    OpeningAt(a, open, x, close, b, "<script");
    ClosingAt(a, open, x, close, b, "</script>", j);
    ContentPiece(a, open, x, close, b, c, j);
    CharAfterOpening(a, open, x, close, b, c);
    if |x| == 0 {
      assert Lower(close[0]) == "</script>"[0];
    }
    RawBlockWithPlainContent(s, |a|, "script", j);
    ScriptExprIsRawBlock(s, |a|);
  }

  /** The script expression is the raw block of `script`. */
  lemma ScriptExprIsRawBlock(s: string, i: nat)
    requires i <= |s|
    ensures Expr(ScriptBlock)(s, i) == RawBlockAt(s, i, "script")
  {
  }

  /** The outer pieces of a text made of five pieces. */
  lemma OuterPieces(a: string, open: string, x: string, close: string, b: string, e: nat)
    requires e == |a| + |open| + |x| + |close|
    ensures var s := a + open + x + close + b;
      e <= |s| && s[..|a|] == a && s[0..|a|] == a && s[e..] == b && s[e..|s|] == b
  {
    var s := a + open + x + close + b;
    assert s == a + (open + x + close + b);
    assert s == (a + open + x + close) + b;
  }

  /** The script pass removes a closed script element between texts without
      `<`, and nothing else. */
  lemma ClosedScriptPass(a: string, open: string, x: string, close: string, b: string)
    requires '<' !in a && '<' !in x && '<' !in b
    requires |open| == 7 && At(open, 0, "<script", true)
    requires |close| == 9 && At(close, 0, "</script>", true)
    requires |x| > 0 ==> !IsWordChar(x[0])
    ensures Replace(ScriptBlock, a + open + x + close + b, "") == a + b
  {
    var s := a + open + x + close + b;
    var e := |a| + 16 + |x|;
    OuterPieces(a, open, x, close, b, e);
    PlainRunHoldsNoMarkup(s, 0, |a|, ScriptBlock);
    ClosedScriptMatches(a, open, x, close, b);
    PlainRunHoldsNoMarkup(s, e, |s|, ScriptBlock);
    ReplaceSingleMatch(Expr(ScriptBlock), s, |a|, e, "");
    assert a + "" == a;
  }

  /** A text without `<` holds no script, style or tag: each pass of
      `body.textContent` keeps it. */
  lemma PlainTextUntouched(t: string, pat: Pattern, rep: string)
    requires '<' !in t && (pat == ScriptBlock || pat == StyleBlock || pat == TagToken)
    ensures Replace(pat, t, rep) == t
  {
    forall k | 0 <= k <= |t| ensures Expr(pat)(t, k).None? {
      NoMarkupWithoutAngle(t, k, pat);
    }
    ReplaceWithoutMatchIsIdentity(Expr(pat), t, rep);
  }

  /** A closed script element between texts without `<` is removed from the
      text `body.textContent` is computed from, and nothing else is. */
  lemma ClosedScriptRemoved(a: string, open: string, x: string, close: string, b: string)
    requires '<' !in a && '<' !in x && '<' !in b
    requires |open| == 7 && At(open, 0, "<script", true)
    requires |close| == 9 && At(close, 0, "</script>", true)
    requires |x| > 0 ==> !IsWordChar(x[0])
    ensures StripScriptsAndStyles(a + open + x + close + b) == a + b
  {
    ClosedScriptPass(a, open, x, close, b);
    PlainTextUntouched(a + b, StyleBlock, "");
  }

  /** An upper-case script element with an attribute is removed whole. */
  lemma StripExample(a: string, open: string, x: string, close: string, b: string)
    requires a == "a" && open == "<SCRIPT" && x == " x>y" && close == "</script>" && b == "b"
    ensures StripScriptsAndStyles(a + open + x + close + b) == "ab"
  {
    forall j | 0 <= j < 7 ensures Lower(open[j]) == "<script"[j] {
      assert j == 0 || j == 1 || j == 2 || j == 3 || j == 4 || j == 5 || j == 6;
    }
    forall j | 0 <= j < 9 ensures Lower(close[j]) == "</script>"[j] {
      assert j == 0 || j == 1 || j == 2 || j == 3 || j == 4 || j == 5 || j == 6 || j == 7 || j == 8;
    }
    ClosedScriptRemoved(a, open, x, close, b);
  }

  // ---------------------------------------------------------------------------
  // The selectors: each one a global `exec` loop over the original page text.

  /** The quote text as a selected element reports it: `&quot;` turned into a
      double quote first, then `&#39;` into an apostrophe. */
  function DecodeEntities(cap: string): string {
    Replace(Literal("&#39;"), Replace(Literal("&quot;"), cap, "\""), "'")
  }

  /** The text of a tag link or author element: the capture as it stands. */
  function Verbatim(capture: string): string {
    capture
  }

  /** The tag texts of one container: every tag link in its capture. */
  function TagTexts(tagsHtml: string): seq<string> {
    MapCaptures(Verbatim, Matches(TagLink, tagsHtml))
  }

  /** A heading's text: inner tags removed, then trimmed. */
  function HeadingText(cap: string): string {
    Trim(Replace(TagToken, cap, ""))
  }

  /** One `exec` of a global expression: the leftmost match at or after
      `lastIndex`, found by trying each position in turn. It is the next match
      of the loop that `MatchesFrom` describes. */
  method Exec(matcher: Matcher, s: string, lastIndex: nat) returns (found: Option<Match>)
    requires WellFormed(matcher) && lastIndex <= |s|
    ensures found == FirstMatch(matcher, s, lastIndex)
  {
    var p := lastIndex;
    while p < |s| && matcher(s, p).None?
      invariant lastIndex <= p <= |s|
      invariant FirstMatch(matcher, s, lastIndex) == FirstMatch(matcher, s, p)
      decreases |s| - p
    {
      p := p + 1;
    }
    found := matcher(s, p);
  }

  /** One round of an `exec` loop: the element of the match found at
      `lastIndex`, then the elements of the matches after it. */
  lemma MapCapturesStep<T>(matcher: Matcher, s: string, lastIndex: nat, f: string -> T)
    requires WellFormed(matcher) && lastIndex <= |s| && FirstMatch(matcher, s, lastIndex).Some?
    ensures var m := FirstMatch(matcher, s, lastIndex).value;
      m.end <= |s|
      && MapCaptures(f, MatchesFrom(matcher, s, lastIndex))
        == [f(m.capture)] + MapCaptures(f, MatchesFrom(matcher, s, m.end))
  {
    var m := FirstMatch(matcher, s, lastIndex).value;
    assert ([m] + MatchesFrom(matcher, s, m.end))[1..] == MatchesFrom(matcher, s, m.end);
  }

  /** The `exec` loop of a selector that pushes one element per match, made
      from the match's first capture group by `f`. */
  method ExecEach<T>(matcher: Matcher, s: string, f: string -> T) returns (elements: seq<T>)
    requires WellFormed(matcher)
    ensures elements == MapCaptures(f, MatchesFrom(matcher, s, 0))
  {
    elements := [];
    var lastIndex: nat := 0;
    var found := Exec(matcher, s, lastIndex);
    while found.Some?
      invariant lastIndex <= |s| && found == FirstMatch(matcher, s, lastIndex)
      invariant elements + MapCaptures(f, MatchesFrom(matcher, s, lastIndex)) == MapCaptures(f, MatchesFrom(matcher, s, 0))
      decreases |s| - lastIndex
    {
      var m := found.value;
      MapCapturesStep(matcher, s, lastIndex, f);
      elements := elements + [f(m.capture)];
      lastIndex := m.end;
      found := Exec(matcher, s, lastIndex);
    }
  }

  /** The `exec` loop of a selector that pushes the text `f` makes of a match
      only when that text is not empty. */
  method ExecNonEmpty(matcher: Matcher, s: string, f: string -> string) returns (elements: seq<string>)
    requires WellFormed(matcher)
    ensures elements == MapNonEmptyCaptures(f, MatchesFrom(matcher, s, 0))
  {
    elements := [];
    var lastIndex: nat := 0;
    var found := Exec(matcher, s, lastIndex);
    while found.Some?
      invariant lastIndex <= |s| && found == FirstMatch(matcher, s, lastIndex)
      invariant elements + MapNonEmptyCaptures(f, MatchesFrom(matcher, s, lastIndex)) == MapNonEmptyCaptures(f, MatchesFrom(matcher, s, 0))
      decreases |s| - lastIndex
    {
      var m := found.value;
      ghost var rest := MatchesFrom(matcher, s, m.end);
      assert MatchesFrom(matcher, s, lastIndex) == [m] + rest;
      assert ([m] + rest)[0] == m && ([m] + rest)[1..] == rest;
      ghost var tail := MapNonEmptyCaptures(f, rest);
      var text := f(m.capture);
      if text != [] {
        assert MapNonEmptyCaptures(f, [m] + rest) == [text] + tail;
        AppendAssoc(elements, [text], tail);
        elements := elements + [text];
      } else {
        assert MapNonEmptyCaptures(f, [m] + rest) == tail;
      }
      lastIndex := m.end;
      found := Exec(matcher, s, lastIndex);
    }
  }

  /** `querySelectorAll('span.text')`: the decoded text of every quote span. */
  method SelectQuoteTexts(html: string) returns (texts: seq<string>)
    ensures texts == MapCaptures(DecodeEntities, Matches(QuoteSpan, html))
  {
    texts := ExecEach(Expr(QuoteSpan), html, DecodeEntities);
  }

  /** `querySelectorAll('small.author')`: the raw text of every author element. */
  method SelectAuthorTexts(html: string) returns (texts: seq<string>)
    ensures texts == MapCaptures(Verbatim, Matches(AuthorSmall, html))
  {
    texts := ExecEach(Expr(AuthorSmall), html, Verbatim);
  }

  /** The inner `exec` loop of `querySelectorAll('div.tags')`: the text of
      every tag link inside one container. */
  method SelectTagLinks(tagsHtml: string) returns (tags: seq<string>)
    ensures tags == TagTexts(tagsHtml)
  {
    tags := ExecEach(Expr(TagLink), tagsHtml, Verbatim);
  }

  /** The outer `exec` loop of `querySelectorAll('div.tags')`, over the
      container expression `block`: one element per container, holding what
      the inner loop finds in the container's capture. */
  method ExecTagContainers(block: Matcher, html: string) returns (containers: seq<seq<string>>)
    requires WellFormed(block)
    ensures containers == MapCaptures(TagTexts, MatchesFrom(block, html, 0))
  {
    containers := [];
    var lastIndex: nat := 0;
    var found := Exec(block, html, lastIndex);
    while found.Some?
      invariant lastIndex <= |html| && found == FirstMatch(block, html, lastIndex)
      invariant containers + MapCaptures(TagTexts, MatchesFrom(block, html, lastIndex)) == MapCaptures(TagTexts, MatchesFrom(block, html, 0))
      decreases |html| - lastIndex
    {
      var m := found.value;
      MapCapturesStep(block, html, lastIndex, TagTexts);
      var tags := SelectTagLinks(m.capture);
      AppendAssoc(containers, [tags], MapCaptures(TagTexts, MatchesFrom(block, html, m.end)));
      containers := containers + [tags];
      lastIndex := m.end;
      found := Exec(block, html, lastIndex);
    }
  }

  /** `querySelectorAll('div.tags')`: one element per tag container, holding
      the texts its own `querySelectorAll` returns. */
  method SelectTagContainers(html: string) returns (containers: seq<seq<string>>)
    ensures containers == MapCaptures(TagTexts, Matches(TagsBlock, html))
  {
    containers := ExecTagContainers(Expr(TagsBlock), html);
  }

  /** `querySelectorAll('h1, h2')`: the non-empty texts of every `h1`, then
      of every `h2`; document order across the two is not kept. */
  method SelectHeadings(html: string) returns (texts: seq<string>)
    ensures texts == MapNonEmptyCaptures(HeadingText, Matches(Heading1, html))
      + MapNonEmptyCaptures(HeadingText, Matches(Heading2, html))
  {
    var h1Texts := ExecNonEmpty(Expr(Heading1), html, HeadingText);
    var h2Texts := ExecNonEmpty(Expr(Heading2), html, HeadingText);
    texts := h1Texts + h2Texts;
  }

  // ---------------------------------------------------------------------------
  // Anchors: every element's `getAttribute` reads one shared `match` binding.

  /** The `match` variable of the anchor loop. Every element's `getAttribute`
      closes over this one binding, not over the value it held when the
      element was pushed. */
  class MatchBinding {
    var current: Option<Match>

    constructor ()
      ensures current == None
    {
      current := None;
    }
  }

  /** An element of `querySelectorAll('a')`: only its closure's binding. */
  datatype AnchorElement = AnchorElement(binding: MatchBinding)

  /** `getAttribute('href')` on an anchor element: the first capture of the
      match the binding holds NOW, or the `TypeError` of indexing `null`. */
  function GetAttribute(e: AnchorElement): (r: Result<string, Failure>)
    reads e.binding
    ensures r.Err? <==> e.binding.current.None?
    ensures r.Ok? ==> r.value == e.binding.current.value.capture
  {
    match e.binding.current
    case None => Err(NullMatchRead)
    case Some(m) => Ok(m.capture)
  }

  /** The anchor loop as written, over the expression `anchor`: one element
      per match, every one sharing the loop's binding, which holds `null` once
      the loop has ended. */
  method ExecSharedBinding(anchor: Matcher, html: string) returns (elements: seq<AnchorElement>, binding: MatchBinding)
    requires WellFormed(anchor)
    ensures fresh(binding)
    ensures |elements| == |MatchesFrom(anchor, html, 0)|
    ensures forall k | 0 <= k < |elements| :: elements[k].binding == binding
    ensures binding.current == None
  {
    elements := [];
    binding := new MatchBinding();
    var lastIndex: nat := 0;
    binding.current := Exec(anchor, html, lastIndex);
    while binding.current.Some?
      invariant lastIndex <= |html| && binding.current == FirstMatch(anchor, html, lastIndex)
      invariant |elements| + |MatchesFrom(anchor, html, lastIndex)| == |MatchesFrom(anchor, html, 0)|
      invariant forall k | 0 <= k < |elements| :: elements[k].binding == binding
      decreases |html| - lastIndex
    {
      assert MatchesFrom(anchor, html, lastIndex) == [binding.current.value] + MatchesFrom(anchor, html, binding.current.value.end);
      elements := elements + [AnchorElement(binding)];
      lastIndex := binding.current.value.end;
      binding.current := Exec(anchor, html, lastIndex);
    }
  }

  /** `querySelectorAll('a')` as written. */
  method SelectAnchors(html: string) returns (elements: seq<AnchorElement>, binding: MatchBinding)
    ensures fresh(binding)
    ensures |elements| == |Matches(Anchor, html)|
    ensures forall k | 0 <= k < |elements| :: elements[k].binding == binding
    ensures binding.current == None
  {
    elements, binding := ExecSharedBinding(Expr(Anchor), html);
  }

  /** The repaired anchor loop over the expression `anchor`: each element
      closes over a binding of its own that keeps the match it was made from. */
  method ExecOwnBindings(anchor: Matcher, html: string) returns (elements: seq<AnchorElement>)
    requires WellFormed(anchor)
    ensures |elements| == |MatchesFrom(anchor, html, 0)|
    ensures forall k | 0 <= k < |elements| :: elements[k].binding.current == Some(MatchesFrom(anchor, html, 0)[k])
  {
    elements := [];
    ghost var done: seq<Match> := [];
    var lastIndex: nat := 0;
    var found := Exec(anchor, html, lastIndex);
    while found.Some?
      invariant lastIndex <= |html| && found == FirstMatch(anchor, html, lastIndex)
      invariant done + MatchesFrom(anchor, html, lastIndex) == MatchesFrom(anchor, html, 0)
      invariant |elements| == |done|
      invariant forall k | 0 <= k < |elements| :: elements[k].binding.current == Some(done[k])
      decreases |html| - lastIndex
    {
      assert MatchesFrom(anchor, html, lastIndex) == [found.value] + MatchesFrom(anchor, html, found.value.end);
      AppendAssoc(done, [found.value], MatchesFrom(anchor, html, found.value.end));
      ghost var before := elements;
      var binding := new MatchBinding();
      binding.current := found;
      elements := elements + [AnchorElement(binding)];
      forall k | 0 <= k < |before| ensures elements[k] == before[k] {
      }
      done := done + [found.value];
      lastIndex := found.value.end;
      found := Exec(anchor, html, lastIndex);
    }
  }

  /** `querySelectorAll('a')` as evidently intended: one element per anchor
      match, whose `getAttribute` reads that match. */
  method SelectAnchorsIntended(html: string) returns (elements: seq<AnchorElement>)
    ensures |elements| == |Matches(Anchor, html)|
    ensures forall k | 0 <= k < |elements| :: elements[k].binding.current == Some(Matches(Anchor, html)[k])
  {
    elements := ExecOwnBindings(Expr(Anchor), html);
  }

  // ---------------------------------------------------------------------------
  // Properties of what the selectors report.

  /** An entity starting with `&` is never found in a text without `&`. */
  lemma NoAmpersandNoEntity(s: string, entity: string)
    requires |entity| > 0 && entity[0] == '&' && '&' !in s
    ensures forall k | 0 <= k <= |s| :: Expr(Literal(entity))(s, k).None?
  {
    forall k | 0 <= k <= |s| ensures !At(s, k, entity, false) {
      if k + |entity| <= |s| {
        assert s[k..k + |entity|][0] == s[k];
      }
    }
  }

  /** A text without `&` holds no entity: decoding leaves it as it is. */
  lemma DecodeWithoutAmpersandIsIdentity(cap: string)
    requires '&' !in cap
    ensures DecodeEntities(cap) == cap
  {
    NoAmpersandNoEntity(cap, "&quot;");
    ReplaceWithoutMatchIsIdentity(Expr(Literal("&quot;")), cap, "\"");
    NoAmpersandNoEntity(cap, "&#39;");
    ReplaceWithoutMatchIsIdentity(Expr(Literal("&#39;")), cap, "'");
  }

  /** Decoding leaves neither entity behind: the second replacement removes
      every `&#39;`, and the apostrophe it writes cannot complete a `&quot;`
      the first replacement already removed. */
  lemma DecodedHoldsNoEntity(cap: string)
    ensures Free(DecodeEntities(cap), "&quot;") && Free(DecodeEntities(cap), "&#39;")
  {
    var once := Replace(Literal("&quot;"), cap, "\"");
    ReplaceLeavesNoLiteral(cap, 0, "&quot;", "\"");
    assert once[0..] == once;
    ReplaceKeepsFree(once, 0, "&#39;", "'", "&quot;");
    ReplaceLeavesNoLiteral(once, 0, "&#39;", "'");
  }

  /** `&quot;` after a text without `&` is decoded to a double quote, and
      decoding goes on after it. */
  lemma QuotDecoded(a: string, b: string)
    requires '&' !in a
    ensures DecodeEntities(a + "&quot;" + b) == a + "\"" + DecodeEntities(b)
  {
    ReplaceFirstOccurrence(a, "&quot;", b, "\"");
    var quoted := a + "\"";
    var rest := Replace(Literal("&quot;"), b, "\"");
    LiteralAbsentFrom(quoted, rest, "&#39;");
    LiteralShiftInvariant(quoted, rest, "&#39;");
    ReplacePlainPrefix(Expr(Literal("&#39;")), quoted, rest, 0, "'");
    assert quoted[0..] == quoted;
  }

  /** `&#39;` after a text without `&` is decoded to an apostrophe, and
      decoding goes on after it. */
  lemma AposDecoded(a: string, b: string)
    requires '&' !in a
    ensures DecodeEntities(a + "&#39;" + b) == a + "'" + DecodeEntities(b)
  {
    QuotPassSkipsApos(a, b);
    ReplaceFirstOccurrence(a, "&#39;", Replace(Literal("&quot;"), b, "\""), "'");
  }

  /** The `&quot;` pass leaves `&#39;` after a text without `&` in place. */
  lemma QuotPassSkipsApos(a: string, b: string)
    requires '&' !in a
    ensures Replace(Literal("&quot;"), a + "&#39;" + b, "\"") == a + "&#39;" + Replace(Literal("&quot;"), b, "\"")
  {
    var q := "&quot;";
    var head := a + "&#39;";
    var s := head + b;
    forall k | 0 <= k < |head| ensures !At(s, k, q, false) {
      if k + |q| <= |s| {
        assert s[k..k + |q|][0] == s[k];
        assert s[k..k + |q|][1] == s[k + 1];
      }
    }
    LiteralShiftInvariant(head, b, q);
    ReplacePlainPrefix(Expr(Literal(q)), head, b, 0, "\"");
    assert head[0..] == head;
  }

  /** Decoding a quote text with both entities in it. */
  lemma DecodeExample(said: string, hi: string)
    requires said == "He said " && hi == "hi"
    ensures DecodeEntities(said + "&quot;" + hi + "&#39;") == said + "\"" + hi + "'"
  {
    DecodeWithoutAmpersandIsIdentity("");
    AposDecoded(hi, "");
    assert hi + "&#39;" + "" == hi + "&#39;";
    QuotDecoded(said, hi + "&#39;");
    assert said + "&quot;" + (hi + "&#39;") == said + "&quot;" + hi + "&#39;";
  }

  /** Trimming creates no `<…>` token. */
  lemma TrimKeepsNoTagPair(s: string)
    requires NoTagPair(s)
    ensures NoTagPair(Trim(s))
  {
    var a := TrimIsSlice(s);
    NoTagPairSlice(s, a, a + |Trim(s)|);
  }

  /** A heading's text is trimmed and holds no `<…>` token. */
  lemma HeadingTextIsClean(cap: string)
    ensures Trim(HeadingText(cap)) == HeadingText(cap)
    ensures NoTagPair(HeadingText(cap))
  {
    ReplaceTagsLeavesNoPair(cap, 0, "");
    TrimKeepsNoTagPair(Replace(TagToken, cap, ""));
    TrimIdempotent(Replace(TagToken, cap, ""));
  }

  /** The anchor selector returns at least one element exactly when the
      anchor expression matches somewhere in the page. */
  lemma AnchorsFoundIffSomeMatch(html: string)
    ensures |Matches(Anchor, html)| > 0 <==> exists k | 0 <= k <= |html| :: MatchAt(Anchor, html, k).Some?
  {
    var anchor := Expr(Anchor);
    MatchesInDocumentOrder(anchor, html, 0);
    if |Matches(Anchor, html)| > 0 {
      var m := Matches(Anchor, html)[0];
      assert anchor(html, m.start) == Some(m);
    }
    if exists k | 0 <= k <= |html| :: MatchAt(Anchor, html, k).Some? {
      var k :| 0 <= k <= |html| && MatchAt(Anchor, html, k).Some?;
      assert anchor(html, k).Some?;
      MatchesCoverEveryMatch(anchor, html, 0, k);
    }
  }
}
