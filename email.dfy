/**
 * The e-mail check shared by the three account forms: the unanchored
 * pattern `\S+@\S+\.\S+` used with `test`
 * (src/components/SignUp.tsx:81, src/components/SignIn.tsx:50,
 * src/components/ForgotPassword.tsx:25). The pattern has no `^` or `$`, so
 * it accepts any text that CONTAINS an address shape, surrounding blanks
 * included.
 */
module EmailPattern {
  import opened JsText

  /** `s[x..e]` reads X@Y.Z with `s[b]` the `@`, `s[c]` the `.`, and X, Y, Z
      non-empty and free of `\s`. */
  predicate Shape(s: string, x: int, b: int, c: int, e: int) {
    0 <= x < b && b + 1 < c && c + 1 < e <= |s|
    && s[b] == '@' && s[c] == '.'
    && NoSpace(s[x..b]) && NoSpace(s[b + 1..c]) && NoSpace(s[c + 1..e])
  }

  /** What the pattern accepts: some substring of `s` has the address shape. */
  ghost predicate EmailLike(s: string) {
    exists x, b, c, e :: Shape(s, x, b, c, e)
  }

  /** The `@` at `b` is preceded by a non-blank and followed, up to `i`, by at
      least one character and no blank. */
  predicate OpenAfterAt(s: string, b: int, i: int) {
    1 <= b && b + 1 < i <= |s| && s[b] == '@' && !IsSpace(s[b - 1])
    && forall k | b < k < i :: !IsSpace(s[k])
  }

  /** Position `i` ends a run after an `@` as `OpenAfterAt` describes. */
  ghost predicate RunAfterAt(s: string, i: int) {
    exists b :: OpenAfterAt(s, b, i)
  }

  /** The shortest match: one non-blank before `@`, the run up to the `.`,
      and one non-blank after it, all before position `i`. */
  predicate ShortMatch(s: string, b: int, c: int, i: int) {
    c + 1 < i <= |s| && OpenAfterAt(s, b, c) && s[c] == '.' && !IsSpace(s[c + 1])
  }

  /** What the scanner remembers after reading a prefix of the input. */
  datatype ScanState = ScanState(
    lastSolid: bool,  // the last character read is not a blank
    justAt: bool,     // the last character read is an `@` after a non-blank
    openAt: bool,     // reading the run after such an `@`, at least one character in
    justDot: bool,    // the last character read is a `.` closing such a run
    found: bool)      // a match has been read

  const Start := ScanState(false, false, false, false, false)

  /** One character of input. */
  function Step(st: ScanState, ch: char): ScanState {
    var solid := !IsSpace(ch);
    ScanState(
      solid,
      ch == '@' && st.lastSolid,
      solid && (st.openAt || st.justAt),
      ch == '.' && st.openAt,
      st.found || (st.justDot && solid))
  }

  /** The state after reading `s[..i]`, left to right. */
  function ScanTo(s: string, i: nat): ScanState
    requires i <= |s|
  {
    if i == 0 then Start else Step(ScanTo(s, i - 1), s[i - 1])
  }

  /** `test`: one left-to-right pass over the input. */
  predicate Test(s: string) {
    ScanTo(s, |s|).found
  }

  /** What each flag of the state means about the prefix read so far. */
  lemma {:induction false} ScanToMeaning(s: string, i: nat)
    requires i <= |s|
    ensures ScanTo(s, i).lastSolid <==> i > 0 && !IsSpace(s[i - 1])
    ensures ScanTo(s, i).justAt <==> i >= 2 && s[i - 1] == '@' && !IsSpace(s[i - 2])
    ensures ScanTo(s, i).openAt <==> RunAfterAt(s, i)
    ensures ScanTo(s, i).justDot <==> i >= 1 && s[i - 1] == '.' && RunAfterAt(s, i - 1)
    ensures ScanTo(s, i).found <==> exists b, c :: ShortMatch(s, b, c, i)
  {
    if i > 0 {
      ScanToMeaning(s, i - 1);
      var st := ScanTo(s, i - 1);
      var ch := s[i - 1];
      // the run after an `@`
      if RunAfterAt(s, i) {
        var b :| OpenAfterAt(s, b, i);
        if b + 1 < i - 1 {
          assert OpenAfterAt(s, b, i - 1);
        } else {
          assert st.justAt;
        }
      }
      if !IsSpace(ch) && st.openAt {
        var b :| OpenAfterAt(s, b, i - 1);
        assert OpenAfterAt(s, b, i);
      }
      if !IsSpace(ch) && st.justAt {
        assert OpenAfterAt(s, i - 2, i);
      }
      // a match
      if exists b, c :: ShortMatch(s, b, c, i) {
        var b, c :| ShortMatch(s, b, c, i);
        if c + 1 < i - 1 {
          assert ShortMatch(s, b, c, i - 1);
        } else {
          assert OpenAfterAt(s, b, i - 2);
        }
      }
      if st.found {
        var b, c :| ShortMatch(s, b, c, i - 1);
        assert ShortMatch(s, b, c, i);
      }
      if st.justDot && !IsSpace(ch) {
        var b :| OpenAfterAt(s, b, i - 2);
        assert ShortMatch(s, b, i - 2, i);
      }
    }
  }

  /** Every match contains a shortest one, and a shortest one is a match. */
  lemma EmailLikeIffShortMatch(s: string)
    ensures EmailLike(s) <==> exists b, c :: ShortMatch(s, b, c, |s|)
  {
    if EmailLike(s) {
      var x, b, c, e :| Shape(s, x, b, c, e);
      assert s[x..b][b - 1 - x] == s[b - 1];
      assert forall k | b < k < c :: s[k] == s[b + 1..c][k - b - 1];
      assert s[c + 1..e][0] == s[c + 1];
      assert ShortMatch(s, b, c, |s|);
    }
    if exists b, c :: ShortMatch(s, b, c, |s|) {
      var b, c :| ShortMatch(s, b, c, |s|);
      assert Shape(s, b - 1, b, c, c + 2);
    }
  }

  /** The scanner accepts exactly the strings the pattern accepts. */
  lemma TestIffEmailLike(s: string)
    ensures Test(s) <==> EmailLike(s)
  {
    ScanToMeaning(s, |s|);
    EmailLikeIffShortMatch(s);
  }

  /** The pattern is not anchored: text around an accepted string, blanks
      included, leaves it accepted. */
  lemma SurroundingTextKeepsEmailLike(s: string, before: string, after: string)
    requires EmailLike(s)
    ensures EmailLike(before + s + after)
  {
    var x, b, c, e :| Shape(s, x, b, c, e);
    var t := before + s + after;
    var d := |before|;
    PaddedSlice(before, s, after, x, b);
    PaddedSlice(before, s, after, b + 1, c);
    PaddedSlice(before, s, after, c + 1, e);
    PaddedAt(before, s, after, b);
    PaddedAt(before, s, after, c);
    assert Shape(t, x + d, b + d, c + d, e + d);
  }

  /** A character of `s` is the same character, shifted, of `before + s + after`. */
  lemma PaddedAt(before: string, s: string, after: string, i: nat)
    requires i < |s|
    ensures (before + s + after)[i + |before|] == s[i]
  {
  }

  /** A slice of `s` is the same slice, shifted, of `before + s + after`. */
  lemma PaddedSlice(before: string, s: string, after: string, i: nat, j: nat)
    requires i <= j <= |s|
    ensures (before + s + after)[i + |before|..j + |before|] == s[i..j]
  {
  }

  /** An accepted string has at least five characters, among them an `@`
      followed later by a `.`. */
  lemma EmailLikeNeedsAtThenDot(s: string)
    requires EmailLike(s)
    ensures |s| >= 5
    ensures exists b, c | 0 < b < c < |s| - 1 :: s[b] == '@' && s[c] == '.'
  {
    var x, b, c, e :| Shape(s, x, b, c, e);
  }

  /** The form's e-mail field is not trimmed before the test: a padded
      address passes, and so does one with words around it. */
  lemma PaddedAddressPasses()
    ensures EmailLike(" a@b.c ")
    ensures EmailLike("not an email: a@b.c")
  {
    assert Shape(" a@b.c ", 1, 2, 4, 6);
    var t := "not an email: a@b.c";
    assert Shape(t, 14, 15, 17, 19);
  }

  /** A blank right after the only `@` rejects the string. */
  lemma BlankAfterAtFails()
    ensures !EmailLike("a@ b.c")
  {
    var s := "a@ b.c";
    TestIffEmailLike(s);
    assert ScanTo(s, 2) == ScanState(true, true, false, false, false);
    assert ScanTo(s, 3) == ScanState(false, false, false, false, false);
    assert ScanTo(s, 5) == ScanState(true, false, false, false, false);
    assert ScanTo(s, |s|).found == false;
  }
}
