/**
 * The JavaScript string primitives the scraper and the forms rely on:
 * the `\s` class, `String.prototype.trim`, the line terminators `.` refuses
 * without the `s` flag, `\w` for `\b`, ASCII case folding for the `i` flag,
 * and searching a literal from a position.
 */
module JsText {
  import opened Wrappers

  /** `\s` in a JavaScript regular expression: WhiteSpace and LineTerminator.
      The same set is what `trim` removes at both ends. */
  predicate IsSpace(c: char) {
    c == '\t' || c == '\n' || c == '\U{000B}' || c == '\U{000C}' || c == '\r' || c == ' '
    || c == '\U{00A0}' || c == '\U{1680}' || ('\U{2000}' <= c <= '\U{200A}')
    || c == '\U{2028}' || c == '\U{2029}' || c == '\U{202F}' || c == '\U{205F}'
    || c == '\U{3000}' || c == '\U{FEFF}'
  }

  /** The characters `.` does not match unless the `s` flag is given. */
  predicate IsLineTerminator(c: char) {
    c == '\n' || c == '\r' || c == '\U{2028}' || c == '\U{2029}'
  }

  /** `\w` without the `u` flag, the class `\b` looks at: ASCII letters, digits and `_`. */
  predicate IsWordChar(c: char) {
    ('a' <= c <= 'z') || ('A' <= c <= 'Z') || ('0' <= c <= '9') || c == '_'
  }

  /** Case folding under the `i` flag without the `u` flag, as far as a
      comparison with an ASCII literal can tell: ASCII letters fold onto each
      other, and JavaScript never folds a non-ASCII character onto an ASCII
      one. Folding between two non-ASCII letters is left out, since every
      literal the edge function compares this way is ASCII. */
  function Lower(c: char): char {
    if 'A' <= c <= 'Z' then (c as int + 32) as char else c
  }

  /** The literal `lit` occurs in `s` at position `i`; with `fold` the characters
      of `s` are compared after `Lower` (the literals searched this way are lower-case). */
  predicate At(s: string, i: nat, lit: string, fold: bool) {
    i + |lit| <= |s| &&
    if fold then forall k | 0 <= k < |lit| :: Lower(s[i + k]) == lit[k]
    else s[i..i + |lit|] == lit
  }

  /** The first position at or after `p` where `lit` occurs. */
  function FindFrom(s: string, lit: string, p: nat, fold: bool): (r: Option<nat>)
    requires p <= |s|
    decreases |s| - p
    ensures r.Some? ==> p <= r.value && At(s, r.value, lit, fold)
    ensures r.Some? ==> forall k | p <= k < r.value :: !At(s, k, lit, fold)
    ensures r.None? ==> forall k | p <= k <= |s| :: !At(s, k, lit, fold)
  {
    if At(s, p, lit, fold) then Some(p)
    else if p == |s| then None
    else FindFrom(s, lit, p + 1, fold)
  }

  /** The search stops at the first occurrence. */
  lemma {:induction false} FindFromFirst(s: string, lit: string, p: nat, q: nat, fold: bool)
    requires p <= q <= |s| && At(s, q, lit, fold)
    requires forall k | p <= k < q :: !At(s, k, lit, fold)
    decreases q - p
    ensures FindFrom(s, lit, p, fold) == Some(q)
  {
    if p < q {
      FindFromFirst(s, lit, p + 1, q, fold);
    }
  }

  /** The first position at or after `p` holding the character `c`. */
  function FindChar(s: string, c: char, p: nat): (r: Option<nat>)
    requires p <= |s|
    decreases |s| - p
    ensures r.Some? ==> p <= r.value < |s| && s[r.value] == c
    ensures r.Some? ==> forall k | p <= k < r.value :: s[k] != c
    ensures r.None? ==> forall k | p <= k < |s| :: s[k] != c
  {
    if p == |s| then None
    else if s[p] == c then Some(p)
    else FindChar(s, c, p + 1)
  }

  /** No position from `a` up to (not including) `b` holds `c`: a run that a
      class `[^c]*` can cover. */
  predicate Lacks(s: string, c: char, a: nat, b: nat) {
    b <= |s| && forall k | a <= k < b :: s[k] != c
  }

  /** `q` is the first position at or after `p` that holds `c`. */
  predicate FirstAt(s: string, c: char, p: nat, q: nat) {
    p <= q < |s| && s[q] == c && Lacks(s, c, p, q)
  }

  /** No line terminator lies from `p` up to `k`: a lazy `(.*?)` without the
      `s` flag can reach `k`. */
  predicate SameLine(s: string, p: nat, k: nat) {
    p <= k <= |s| && forall m | p <= m < k :: !IsLineTerminator(s[m])
  }

  /** `FindChar` finds exactly the first position holding the character. */
  lemma FindCharIsFirstAt(s: string, c: char, p: nat)
    requires p <= |s|
    ensures forall q: nat :: FindChar(s, c, p) == Some(q) <==> FirstAt(s, c, p, q)
  {
  }

  /** `s` holds no `\s` character. */
  predicate NoSpace(s: string) {
    forall k | 0 <= k < |s| :: !IsSpace(s[k])
  }

  /** `trimStart`: drops the leading `\s` characters. */
  function TrimStart(s: string): string {
    if s != [] && IsSpace(s[0]) then TrimStart(s[1..]) else s
  }

  /** `trimEnd`: drops the trailing `\s` characters. */
  function TrimEnd(s: string): string {
    if s != [] && IsSpace(s[|s| - 1]) then TrimEnd(s[..|s| - 1]) else s
  }

  /** `String.prototype.trim`. */
  function Trim(s: string): string {
    TrimEnd(TrimStart(s))
  }

  /** A string of `\s` characters only trims to nothing from either end. */
  lemma {:induction false} TrimBlank(s: string)
    requires forall k | 0 <= k < |s| :: IsSpace(s[k])
    decreases |s|
    ensures TrimStart(s) == [] && TrimEnd(s) == []
  {
    if s != [] {
      assert IsSpace(s[0]) && IsSpace(s[|s| - 1]);
      TrimBlank(s[1..]);
      TrimBlank(s[..|s| - 1]);
    }
  }

  /** `trimStart` drops a run of `\s` characters from the front and stops at
      the first other character. */
  lemma {:induction false} TrimStartDropsLeadingSpace(s: string)
    decreases |s|
    ensures |TrimStart(s)| <= |s| && TrimStart(s) == s[|s| - |TrimStart(s)|..]
    ensures forall k | 0 <= k < |s| - |TrimStart(s)| :: IsSpace(s[k])
    ensures TrimStart(s) != [] ==> !IsSpace(TrimStart(s)[0])
  {
    if s != [] && IsSpace(s[0]) {
      TrimStartDropsLeadingSpace(s[1..]);
      assert s[1..][|s| - 1 - |TrimStart(s)|..] == s[|s| - |TrimStart(s)|..];
      forall k | 1 <= k < |s| - |TrimStart(s)| ensures IsSpace(s[k]) {
        assert s[1..][k - 1] == s[k];
      }
    }
  }

  /** `trimStart` of a concatenation: the first part trimmed, followed by the
      second; when the first part is all `\s`, the second part trimmed. */
  lemma {:induction false} TrimStartAppend(a: string, b: string)
    decreases |a|
    ensures TrimStart(a + b) == if TrimStart(a) == [] then TrimStart(b) else TrimStart(a) + b
  {
    if a == [] {
      assert a + b == b;
    } else if IsSpace(a[0]) {
      assert (a + b)[0] == a[0] && (a + b)[1..] == a[1..] + b;
      TrimStartAppend(a[1..], b);
    } else {
      assert (a + b)[0] == a[0];
    }
  }

  /** `trimEnd` of a concatenation: the first part followed by the second
      trimmed; when the second part is all `\s`, the first part trimmed. */
  lemma {:induction false} TrimEndAppend(a: string, b: string)
    decreases |b|
    ensures TrimEnd(a + b) == if TrimEnd(b) == [] then TrimEnd(a) else a + TrimEnd(b)
  {
    if b == [] {
      assert a + b == a;
    } else if IsSpace(b[|b| - 1]) {
      var init := b[..|b| - 1];
      assert (a + b)[|a + b| - 1] == b[|b| - 1] && (a + b)[..|a + b| - 1] == a + init;
      TrimEndAppend(a, init);
    } else {
      assert (a + b)[|a + b| - 1] == b[|b| - 1];
    }
  }

  /** `trimEnd` drops a run of `\s` characters from the back and stops at the
      last other character. */
  lemma {:induction false} TrimEndDropsTrailingSpace(s: string)
    decreases |s|
    ensures |TrimEnd(s)| <= |s| && TrimEnd(s) == s[..|TrimEnd(s)|]
    ensures forall k | |TrimEnd(s)| <= k < |s| :: IsSpace(s[k])
    ensures TrimEnd(s) != [] ==> !IsSpace(TrimEnd(s)[|TrimEnd(s)| - 1])
  {
    if s != [] && IsSpace(s[|s| - 1]) {
      var init := s[..|s| - 1];
      TrimEndDropsTrailingSpace(init);
      assert TrimEnd(s) == TrimEnd(init);
      assert init[..|TrimEnd(init)|] == s[..|TrimEnd(init)|];
      forall k | |TrimEnd(s)| <= k < |s| - 1 ensures IsSpace(s[k]) {
        assert init[k] == s[k];
      }
    }
  }

  /** `trim` leaves no `\s` at either end, and leaves nothing exactly when
      the text is all `\s`. */
  lemma TrimEnds(s: string)
    ensures Trim(s) != [] ==> !IsSpace(Trim(s)[0]) && !IsSpace(Trim(s)[|Trim(s)| - 1])
    ensures Trim(s) == [] <==> forall k | 0 <= k < |s| :: IsSpace(s[k])
  {
    var t := TrimStart(s);
    TrimStartDropsLeadingSpace(s);
    TrimEndDropsTrailingSpace(t);
    var r := Trim(s);
    if r != [] {
      assert r[0] == t[0];
    } else {
      assert t == [];
    }
    if forall k | 0 <= k < |s| :: IsSpace(s[k]) {
      if r != [] {
        assert r[0] == t[0] == s[|s| - |t|];
      }
    }
  }

  /** What `trim` keeps is a contiguous piece of its input: it only drops
      characters at the two ends. */
  lemma TrimIsSlice(s: string) returns (a: nat)
    ensures a + |Trim(s)| <= |s| && Trim(s) == s[a..a + |Trim(s)|]
  {
    var t := TrimStart(s);
    TrimStartDropsLeadingSpace(s);
    TrimEndDropsTrailingSpace(t);
    a := |s| - |t|;
    assert t[..|Trim(s)|] == s[a..a + |Trim(s)|];
  }

  /** Trimming twice is trimming once. */
  lemma TrimIdempotent(s: string)
    ensures Trim(Trim(s)) == Trim(s)
  {
    var r := Trim(s);
    TrimEnds(s);
    if r != [] {
      assert TrimStart(r) == r;
      assert TrimEnd(r) == r;
    }
  }
}
