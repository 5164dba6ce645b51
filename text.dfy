/** The string operations the scraper relies on, written out as Python
    defines them: `str.strip()`, the `in` operator on strings,
    `str.replace`, `str(n)` for a natural number, and the one regular
    expression `[0-9]{3}[A-Za-z][0-9]+` searched with `re.search`. */
module Text {
  import opened Wrappers

  // ---------------------------------------------------------------------
  // str.strip()

  /** Python's `str.isspace()` for one character: the characters with
      bidirectional class WS, B or S, or general category Zs. */
  predicate IsSpace(c: char) {
    || ('\t' <= c <= '\r')
    || ('\U{1C}' <= c <= '\U{1F}')
    || c == ' '
    || c == '\U{85}'
    || c == '\U{A0}'
    || c == '\U{1680}'
    || ('\U{2000}' <= c <= '\U{200A}')
    || c == '\U{2028}'
    || c == '\U{2029}'
    || c == '\U{202F}'
    || c == '\U{205F}'
    || c == '\U{3000}'
  }

  /** The first index at or after `i` that does not hold a space. */
  function SkipSpaces(s: string, i: nat): (j: nat)
    requires i <= |s|
    ensures i <= j <= |s|
    ensures forall k :: i <= k < j ==> IsSpace(s[k])
    ensures j == |s| || !IsSpace(s[j])
    decreases |s| - i
  {
    if i == |s| || !IsSpace(s[i]) then i else SkipSpaces(s, i + 1)
  }

  /** The end of `s[..e]` once its trailing spaces are dropped. */
  function DropTrailingSpaces(s: string, e: nat): (j: nat)
    requires e <= |s|
    ensures j <= e
    ensures forall k :: j <= k < e ==> IsSpace(s[k])
    ensures j == 0 || !IsSpace(s[j - 1])
  {
    if e == 0 || !IsSpace(s[e - 1]) then e else DropTrailingSpaces(s, e - 1)
  }

  /** Python's `s.strip()`: `s` without its leading and trailing spaces. */
  function Strip(s: string): (r: string)
    ensures r != [] ==> !IsSpace(r[0]) && !IsSpace(r[|r| - 1])
    ensures exists i: nat :: OccursAt(s, r, i)
                        && (forall k :: 0 <= k < i ==> IsSpace(s[k]))
                        && (forall k :: i + |r| <= k < |s| ==> IsSpace(s[k]))
  {
    var i := SkipSpaces(s, 0);
    var e := DropTrailingSpaces(s, |s|);
    if e <= i then
      assert OccursAt(s, [], 0);
      []
    else
      assert OccursAt(s, s[i..e], i);
      s[i..e]
  }

  /** Stripping twice is stripping once. */
  lemma StripIdempotent(s: string)
    ensures Strip(Strip(s)) == Strip(s)
  {
    var r := Strip(s);
    StripKeepsTrimmed(r);
  }

  /** A string that neither starts nor ends with a space is left alone. */
  lemma StripKeepsTrimmed(s: string)
    requires s != [] ==> !IsSpace(s[0]) && !IsSpace(s[|s| - 1])
    ensures Strip(s) == s
  {
    if s != [] {
      assert SkipSpaces(s, 0) == 0;
      assert DropTrailingSpaces(s, |s|) == |s|;
      assert s[0..|s|] == s;
    }
  }

  // ---------------------------------------------------------------------
  // The `in` operator on strings

  predicate StartsWith(s: string, prefix: string) {
    |prefix| <= |s| && s[..|prefix|] == prefix
  }

  /** Python's `pat in s`. */
  predicate Contains(s: string, pat: string)
    decreases |s|
  {
    StartsWith(s, pat) || (s != [] && Contains(s[1..], pat))
  }

  predicate OccursAt(s: string, pat: string, i: nat) {
    i + |pat| <= |s| && s[i..i + |pat|] == pat
  }

  /** `Contains` holds exactly when `pat` occurs at some index of `s`. */
  lemma {:induction false} ContainsIff(s: string, pat: string)
    ensures Contains(s, pat) <==> exists i: nat :: OccursAt(s, pat, i)
    decreases |s|
  {
    if StartsWith(s, pat) {
      assert OccursAt(s, pat, 0);
    } else if s == [] {
    } else {
      ContainsIff(s[1..], pat);
      if Contains(s[1..], pat) {
        var i: nat :| OccursAt(s[1..], pat, i);
        assert s[i + 1..i + 1 + |pat|] == s[1..][i..i + |pat|];
        assert OccursAt(s, pat, i + 1);
      } else {
        forall i: nat | OccursAt(s, pat, i) && i > 0 ensures OccursAt(s[1..], pat, i - 1) {
          assert s[1..][i - 1..i - 1 + |pat|] == s[i..i + |pat|];
        }
      }
    }
  }

  lemma ContainsPrepend(c: char, s: string, pat: string)
    requires Contains(s, pat)
    ensures Contains([c] + s, pat)
  {
    assert ([c] + s)[1..] == s;
  }

  // ---------------------------------------------------------------------
  // str.replace

  /** Python's `s.replace(pat, rep)` for a non-empty `pat`: every
      occurrence found scanning left to right, each search resuming after
      the previous occurrence, is replaced by `rep`. */
  function Replace(s: string, pat: string, rep: string): string
    requires pat != []
    decreases |s|
  {
    if StartsWith(s, pat) then rep + Replace(s[|pat|..], pat, rep)
    else if s == [] then []
    else [s[0]] + Replace(s[1..], pat, rep)
  }

  /** A string without an occurrence of `pat` comes back unchanged. */
  lemma {:induction false} ReplaceAbsent(s: string, pat: string, rep: string)
    requires pat != []
    requires !Contains(s, pat)
    ensures Replace(s, pat, rep) == s
    decreases |s|
  {
    if s != [] {
      ReplaceAbsent(s[1..], pat, rep);
      assert [s[0]] + s[1..] == s;
    }
  }

  /** Removing an occurrence never lengthens a string, and shortens it
      whenever there is one. */
  lemma {:induction false} RemoveShortens(s: string, pat: string)
    requires pat != []
    ensures |Replace(s, pat, "")| <= |s|
    ensures Contains(s, pat) ==> |Replace(s, pat, "")| < |s|
    decreases |s|
  {
    if StartsWith(s, pat) {
      RemoveShortens(s[|pat|..], pat);
    } else if s != [] {
      RemoveShortens(s[1..], pat);
    }
  }

  /** Removing `pat` leaves `s` as it was exactly when `pat` does not
      occur in it. */
  lemma RemoveUnchangedIff(s: string, pat: string)
    requires pat != []
    ensures Replace(s, pat, "") == s <==> !Contains(s, pat)
  {
    RemoveShortens(s, pat);
    if !Contains(s, pat) {
      ReplaceAbsent(s, pat, "");
    }
  }

  /** A prefix none of whose characters can start `pat` survives a
      replacement. */
  lemma {:induction false} ReplaceKeepsPrefix(s: string, w: string, pat: string, rep: string)
    requires pat != []
    requires StartsWith(s, w)
    requires forall k :: 0 <= k < |w| ==> w[k] != pat[0]
    ensures StartsWith(Replace(s, pat, rep), w)
    decreases |w|
  {
    if w != [] {
      assert s[0] == w[0];
      assert !StartsWith(s, pat);
      assert s[1..][..|w| - 1] == w[1..];
      ReplaceKeepsPrefix(s[1..], w[1..], pat, rep);
      assert Replace(s, pat, rep) == [s[0]] + Replace(s[1..], pat, rep);
    }
  }

  /** A `.jpg` in a string that starts with `thumb_` lies after that
      prefix. */
  lemma JpgAfterThumb(s: string)
    requires StartsWith(s, "thumb_") && Contains(s, ".jpg")
    ensures Contains(s[6..], ".jpg")
  {
    var pat, jpg := "thumb_", ".jpg";
    ContainsIff(s, jpg);
    var i: nat :| OccursAt(s, jpg, i);
    assert s[i] == '.' by { assert s[i] == s[i..i + 4][0]; }
    assert i >= 6;
    assert s[6..][i - 6..i - 6 + 4] == s[i..i + 4];
    assert OccursAt(s[6..], jpg, i - 6);
    ContainsIff(s[6..], jpg);
  }

  /** Removing `thumb_` cannot destroy a `.jpg`: the two share no
      character, so no occurrence of one overlaps an occurrence of the
      other. */
  lemma {:induction false} RemoveThumbKeepsJpg(s: string)
    requires Contains(s, ".jpg")
    ensures Contains(Replace(s, "thumb_", ""), ".jpg")
    decreases |s|
  {
    if StartsWith(s, "thumb_") {
      JpgAfterThumb(s);
      RemoveThumbKeepsJpg(s[6..]);
      var rest := Replace(s[6..], "thumb_", "");
      assert |"thumb_"| == 6 && "" + rest == rest;
      assert Replace(s, "thumb_", "") == rest;
    } else if StartsWith(s, ".jpg") {
      ReplaceKeepsPrefix(s, ".jpg", "thumb_", "");
    } else {
      RemoveThumbKeepsJpg(s[1..]);
      ContainsPrepend(s[0], Replace(s[1..], "thumb_", ""), ".jpg");
    }
  }

  // ---------------------------------------------------------------------
  // str(n) for a natural number

  /** `[0-9]`: an ASCII digit (the class does not take other Unicode
      digits). */
  predicate IsDigit(c: char) {
    '0' <= c <= '9'
  }

  /** `[A-Za-z]`: an ASCII letter. */
  predicate IsLetter(c: char) {
    ('A' <= c <= 'Z') || ('a' <= c <= 'z')
  }

  predicate AllDigits(s: string) {
    forall k :: 0 <= k < |s| ==> IsDigit(s[k])
  }

  function DigitChar(d: nat): (c: char)
    requires d < 10
    ensures IsDigit(c)
  {
    ('0' as int + d) as char
  }

  function DigitValue(c: char): (d: nat)
    requires IsDigit(c)
    ensures d < 10 && DigitChar(d) == c
  {
    c as int - '0' as int
  }

  /** Python's `str(n)`: decimal digits, no sign, no zero-padding. */
  function NatToString(n: nat): (r: string)
    ensures |r| >= 1 && AllDigits(r)
    ensures r[0] == '0' <==> n == 0
    decreases n
  {
    if n < 10 then [DigitChar(n)] else NatToString(n / 10) + [DigitChar(n % 10)]
  }

  /** The value of a string of decimal digits: the inverse of `NatToString`. */
  function ParseNat(s: string): nat
    requires AllDigits(s)
  {
    if s == [] then 0 else ParseNat(s[..|s| - 1]) * 10 + DigitValue(s[|s| - 1])
  }

  lemma {:induction false} ParseNatToString(n: nat)
    ensures ParseNat(NatToString(n)) == n
    decreases n
  {
    var r := NatToString(n);
    if n < 10 {
      assert r[..0] == [];
    } else {
      var hi := NatToString(n / 10);
      assert r[..|r| - 1] == hi;
      ParseNatToString(n / 10);
    }
  }

  /** Distinct numbers have distinct decimal renderings. */
  lemma NatToStringInjective(a: nat, b: nat)
    requires NatToString(a) == NatToString(b)
    ensures a == b
  {
    ParseNatToString(a);
    ParseNatToString(b);
  }

  // ---------------------------------------------------------------------
  // re.search(r'([0-9]{3}[A-Za-z][0-9]+)', s).group(1)

  /** The pattern can start matching at `i`: three digits, a letter and at
      least one digit follow. */
  predicate MatchesAt(s: string, i: nat) {
    && i + 5 <= |s|
    && IsDigit(s[i]) && IsDigit(s[i + 1]) && IsDigit(s[i + 2])
    && IsLetter(s[i + 3])
    && IsDigit(s[i + 4])
  }

  /** `t` is matched in full by `[0-9]{3}[A-Za-z][0-9]+`. */
  predicate IsIdToken(t: string) {
    && |t| >= 5
    && IsDigit(t[0]) && IsDigit(t[1]) && IsDigit(t[2])
    && IsLetter(t[3])
    && AllDigits(t[4..])
  }

  /** The end of the run of digits that starts at `k`. */
  function DigitRunEnd(s: string, k: nat): (e: nat)
    requires k <= |s|
    ensures k <= e <= |s|
    ensures forall j :: k <= j < e ==> IsDigit(s[j])
    ensures e == |s| || !IsDigit(s[e])
    decreases |s| - k
  {
    if k == |s| || !IsDigit(s[k]) then k else DigitRunEnd(s, k + 1)
  }

  /** The leftmost index at or after `from` where the pattern matches. */
  function FirstMatch(s: string, from: nat): (r: Option<nat>)
    requires from <= |s|
    ensures r.Some? ==> from <= r.value < |s| && MatchesAt(s, r.value)
    ensures r.Some? ==> forall j :: from <= j < r.value ==> !MatchesAt(s, j)
    ensures r.None? ==> forall j :: from <= j < |s| ==> !MatchesAt(s, j)
    decreases |s| - from
  {
    if from == |s| then None
    else if MatchesAt(s, from) then Some(from)
    else FirstMatch(s, from + 1)
  }

  /** `re.search` with the question-number pattern, or `None` when there is
      no match: the leftmost match, with the trailing digits taken
      greedily. */
  function SearchId(s: string): (r: Option<string>)
    ensures r.None? <==> forall i :: 0 <= i < |s| ==> !MatchesAt(s, i)
    ensures r.Some? ==> IsIdToken(r.value)
    ensures r.Some? ==>
      exists i :: 0 <= i <= |s| - |r.value| && MatchesAt(s, i)
        && (forall j :: 0 <= j < i ==> !MatchesAt(s, j))
        && r.value == s[i..i + |r.value|]
        && (i + |r.value| == |s| || !IsDigit(s[i + |r.value|]))
  {
    match FirstMatch(s, 0)
    case None => None
    case Some(i) =>
      var e := DigitRunEnd(s, i + 4);
      assert MatchesAt(s, i);
      Some(s[i..e])
  }
}
