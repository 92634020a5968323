/** The pieces of Python's `str` that the triage code relies on:
    `lower`, `in`, `startswith`, `strip`, `join` and the decimal rendering
    of an integer inside an f-string. */
module Text {

  // ---------------------------------------------------------------------
  // Case mapping
  // ---------------------------------------------------------------------

  predicate IsUpper(c: char) {
    'A' <= c <= 'Z'
  }

  /** Python's lower-casing restricted to the ASCII letters. */
  function LowerChar(c: char): (r: char)
    ensures !IsUpper(r)
    ensures !IsUpper(c) ==> r == c
  {
    if IsUpper(c) then (c as int + 32) as char else c
  }

  /** `s.lower()`: every character mapped, nothing added or removed. */
  function Lower(s: string): (r: string)
    ensures |r| == |s|
    ensures forall i :: 0 <= i < |r| ==> !IsUpper(r[i])
  {
    seq(|s|, i requires 0 <= i < |s| => LowerChar(s[i]))
  }

  // ---------------------------------------------------------------------
  // Substrings and prefixes
  // ---------------------------------------------------------------------

  /** `pat` occurs in `s` starting at index `i`. */
  predicate OccursAt(s: string, pat: string, i: int) {
    0 <= i && i + |pat| <= |s| && s[i..i + |pat|] == pat
  }

  /** `s.startswith(pat)`. */
  predicate StartsWith(s: string, pat: string) {
    |pat| <= |s| && s[..|pat|] == pat
  }

  /** Python's `pat in s`, scanning the start positions left to right.
      A pattern is only ever found in a text at least as long. */
  function Contains(s: string, pat: string): (b: bool)
    ensures b ==> |pat| <= |s|
    decreases |s|
  {
    StartsWith(s, pat) || (|s| > 0 && Contains(s[1..], pat))
  }

  /** `pat in s` holds exactly when `pat` occurs at some index of `s`. */
  lemma {:induction false} ContainsIff(s: string, pat: string)
    ensures Contains(s, pat) <==> exists i :: OccursAt(s, pat, i)
    decreases |s|
  {
    assert OccursAt(s, pat, 0) <==> StartsWith(s, pat);
    if |s| > 0 {
      ContainsIff(s[1..], pat);
      forall i | 0 < i ensures OccursAt(s, pat, i) <==> OccursAt(s[1..], pat, i - 1) {
        if i + |pat| <= |s| {
          assert s[1..][i - 1..i - 1 + |pat|] == s[i..i + |pat|];
        }
      }
      if Contains(s[1..], pat) {
        var i :| OccursAt(s[1..], pat, i);
        assert OccursAt(s, pat, i + 1);
      }
    }
  }

  /** Lower-casing both sides keeps an occurrence where it was. */
  lemma OccursAtLower(s: string, pat: string, i: int)
    requires OccursAt(s, pat, i)
    ensures OccursAt(Lower(s), Lower(pat), i)
  {
    assert Lower(s)[i..i + |pat|] == Lower(pat) by {
      forall k | 0 <= k < |pat| ensures Lower(s)[i..i + |pat|][k] == Lower(pat)[k] {
        assert s[i..i + |pat|][k] == pat[k];
      }
    }
  }

  /** Lower-casing works piece by piece. */
  lemma LowerConcat(a: string, b: string)
    ensures Lower(a + b) == Lower(a) + Lower(b)
  {
  }

  /** A pattern placed between two strings occurs right after the first. */
  lemma OccursBetween(a: string, pat: string, b: string)
    ensures OccursAt(a + pat + b, pat, |a|)
  {
    assert (a + pat + b)[|a|..|a| + |pat|] == pat;
  }

  /** A pattern holding an upper-case letter never occurs in lower-cased text. */
  lemma UpperNeverInLower(s: string, pat: string, j: int)
    requires 0 <= j < |pat| && IsUpper(pat[j])
    ensures !Contains(Lower(s), pat)
  {
    ContainsIff(Lower(s), pat);
    forall i ensures !OccursAt(Lower(s), pat, i) {
      if 0 <= i && i + |pat| <= |s| {
        assert Lower(s)[i..i + |pat|][j] == Lower(s)[i + j];
      }
    }
  }

  // ---------------------------------------------------------------------
  // Whitespace stripping
  // ---------------------------------------------------------------------

  /** The characters Python's `str.isspace` accepts, the ones `strip()` removes. */
  predicate IsSpace(c: char) {
    c == ' ' || ('\t' <= c <= '\r') || ('\U{1C}' <= c <= '\U{1F}')
    || c == '\U{85}' || c == '\U{A0}' || c == '\U{1680}'
    || ('\U{2000}' <= c <= '\U{200A}') || c == '\U{2028}' || c == '\U{2029}'
    || c == '\U{202F}' || c == '\U{205F}' || c == '\U{3000}'
  }

  /** The first index at or after `i` whose character `drop` rejects, or
      `|s|` when there is none. */
  function SkipForward(s: string, drop: char -> bool, i: nat): (k: nat)
    requires i <= |s|
    ensures i <= k <= |s|
    ensures forall j :: i <= j < k ==> drop(s[j])
    ensures k < |s| ==> !drop(s[k])
    decreases |s| - i
  {
    if i < |s| && drop(s[i]) then SkipForward(s, drop, i + 1) else i
  }

  /** The index just past the last character before `j` that `drop`
      rejects, or 0 when there is none. */
  function SkipBackward(s: string, drop: char -> bool, j: nat): (k: nat)
    requires j <= |s|
    ensures k <= j
    ensures forall i :: k <= i < j ==> drop(s[i])
    ensures k > 0 ==> !drop(s[k - 1])
  {
    if j > 0 && drop(s[j - 1]) then SkipBackward(s, drop, j - 1) else j
  }

  /** `s.lstrip(chars)`: the suffix left once the leading characters that
      `drop` accepts are gone; `s.lstrip()` drops `IsSpace`. */
  function TrimStart(s: string, drop: char -> bool): (r: string)
    ensures |r| <= |s| && r == s[|s| - |r|..]
    ensures forall i :: 0 <= i < |s| - |r| ==> drop(s[i])
    ensures |r| > 0 ==> !drop(r[0])
  {
    s[SkipForward(s, drop, 0)..]
  }

  /** `s.rstrip(chars)`: the prefix left once the trailing characters that
      `drop` accepts are gone; `s.rstrip()` drops `IsSpace`. */
  function TrimEnd(s: string, drop: char -> bool): (r: string)
    ensures |r| <= |s| && r == s[..|r|]
    ensures forall i :: |r| <= i < |s| ==> drop(s[i])
    ensures |r| > 0 ==> !drop(r[|r| - 1])
  {
    s[..SkipBackward(s, drop, |s|)]
  }

  /** `t` neither starts nor ends with whitespace. */
  predicate NoOuterSpace(t: string) {
    |t| > 0 ==> !IsSpace(t[0]) && !IsSpace(t[|t| - 1])
  }

  /** `r` is the piece of `s` starting at `a`, and everything of `s`
      before or after that piece is dropped by `drop`. */
  predicate TrimmedAt(s: string, r: string, a: int, drop: char -> bool) {
    0 <= a && a + |r| <= |s| && r == s[a..a + |r|]
    && (forall i :: 0 <= i < a ==> drop(s[i]))
    && (forall i :: a + |r| <= i < |s| ==> drop(s[i]))
  }

  /** `s.strip()`: what is left is `s` with a run of whitespace removed
      from each end and nothing else; it carries no whitespace at either
      end, and it is empty exactly when `s` is all whitespace. */
  function Strip(s: string): (r: string)
    ensures |r| <= |s|
    ensures exists a :: TrimmedAt(s, r, a, IsSpace)
    ensures NoOuterSpace(r)
    ensures r == [] <==> forall i :: 0 <= i < |s| ==> IsSpace(s[i])
  {
    TrimBothEnds(s, IsSpace);
    TrimBothEndsEmpty(s, IsSpace);
    TrimEnd(TrimStart(s, IsSpace), IsSpace)
  }

  /** Trimming the start and then the end leaves a piece of `s` with only
      dropped characters around it, and none at its own ends. */
  lemma TrimBothEnds(s: string, drop: char -> bool)
    ensures var t := TrimStart(s, drop);
            TrimmedAt(s, TrimEnd(t, drop), |s| - |t|, drop)
    ensures var r := TrimEnd(TrimStart(s, drop), drop);
            |r| > 0 ==> !drop(r[0]) && !drop(r[|r| - 1])
  {
    var t := TrimStart(s, drop);
    PieceOfSuffix(s, t, TrimEnd(t, drop), drop);
  }

  /** A prefix `r` of a suffix `t` of `s`, where `drop` accepts what the
      suffix leaves out in front and what the prefix leaves out behind. */
  lemma PieceOfSuffix(s: string, t: string, r: string, drop: char -> bool)
    requires |t| <= |s| && t == s[|s| - |t|..]
    requires forall i :: 0 <= i < |s| - |t| ==> drop(s[i])
    requires |t| > 0 ==> !drop(t[0])
    requires |r| <= |t| && r == t[..|r|]
    requires forall i :: |r| <= i < |t| ==> drop(t[i])
    requires |r| > 0 ==> !drop(r[|r| - 1])
    ensures TrimmedAt(s, r, |s| - |t|, drop)
    ensures |r| > 0 ==> !drop(r[0]) && !drop(r[|r| - 1])
  {
    var a := |s| - |t|;
    assert |r| > 0 ==> r[0] == t[0];
    assert r == s[a..a + |r|];
    forall i | a + |r| <= i < |s| ensures drop(s[i]) {
      assert s[i] == t[i - a];
    }
  }

  /** Trimming both ends leaves nothing exactly when `drop` accepts every
      character of `s`. */
  lemma TrimBothEndsEmpty(s: string, drop: char -> bool)
    ensures TrimEnd(TrimStart(s, drop), drop) == [] <==> forall i :: 0 <= i < |s| ==> drop(s[i])
  {
    var t := TrimStart(s, drop);
    var r := TrimEnd(t, drop);
    assert r == [] ==> t == [];
  }

  /** What `strip()` keeps is a piece of the original text. */
  lemma {:induction false} StripIsSubstring(s: string)
    ensures Contains(s, Strip(s))
  {
    var r := Strip(s);
    var a :| TrimmedAt(s, r, a, IsSpace);
    assert OccursAt(s, r, a);
    ContainsIff(s, r);
  }

  /** Stripping twice is stripping once. */
  lemma StripIdempotent(s: string)
    ensures Strip(Strip(s)) == Strip(s)
  {
    var r := Strip(s);
    assert NoOuterSpace(r);
    assert SkipForward(r, IsSpace, 0) == 0 by {
      if |r| > 0 {
        assert !IsSpace(r[0]);
      }
    }
    assert TrimStart(r, IsSpace) == r;
    assert SkipBackward(r, IsSpace, |r|) == |r| by {
      if |r| > 0 {
        assert !IsSpace(r[|r| - 1]);
      }
    }
    assert TrimEnd(r, IsSpace) == r;
  }

  // ---------------------------------------------------------------------
  // Joining
  // ---------------------------------------------------------------------

  /** `sep.join(xs)`: it starts with the first item. */
  function Join(sep: string, xs: seq<string>): (r: string)
    ensures |xs| > 0 ==> StartsWith(r, xs[0])
  {
    if |xs| == 0 then ""
    else if |xs| == 1 then xs[0]
    else xs[0] + sep + Join(sep, xs[1..])
  }

  /** Joining the first `k` items gives a prefix of joining all of them. */
  lemma {:induction false} JoinPrefix(sep: string, xs: seq<string>, k: nat)
    requires k <= |xs|
    ensures StartsWith(Join(sep, xs), Join(sep, xs[..k]))
  {
    if k == 0 {
    } else if k == 1 {
      assert xs[..1] == [xs[0]];
    } else {
      assert xs[..k][1..] == xs[1..][..k - 1];
      JoinPrefix(sep, xs[1..], k - 1);
      var head := xs[0] + sep;
      assert Join(sep, xs[..k]) == head + Join(sep, xs[1..][..k - 1]);
      assert Join(sep, xs) == head + Join(sep, xs[1..]);
    }
  }

  // ---------------------------------------------------------------------
  // Decimal rendering of a counter
  // ---------------------------------------------------------------------

  predicate IsDigit(c: char) {
    '0' <= c <= '9'
  }

  predicate AllDigits(s: string) {
    forall i :: 0 <= i < |s| ==> IsDigit(s[i])
  }

  function DigitChar(d: nat): (c: char)
    requires d < 10
    ensures IsDigit(c) && DigitValue(c) == d
  {
    ('0' as int + d) as char
  }

  function DigitValue(c: char): nat
    requires IsDigit(c)
  {
    c as int - '0' as int
  }

  /** The value a string of decimal digits denotes. */
  function DigitsValue(s: string): nat
    requires AllDigits(s)
  {
    if s == [] then 0
    else 10 * DigitsValue(s[..|s| - 1]) + DigitValue(s[|s| - 1])
  }

  /** `str(n)` for a natural number: non-empty decimal digits, with no
      leading zero unless the number is zero. */
  function NatToString(n: nat): (r: string)
    ensures |r| > 0 && AllDigits(r)
    ensures r[0] == '0' ==> n == 0
  {
    if n < 10 then [DigitChar(n)] else NatToString(n / 10) + [DigitChar(n % 10)]
  }

  /** Reading back the digits of `str(n)` gives `n`. */
  lemma {:induction false} NatToStringRoundTrip(n: nat)
    ensures DigitsValue(NatToString(n)) == n
  {
    if n >= 10 {
      var s := NatToString(n);
      assert s[..|s| - 1] == NatToString(n / 10);
      NatToStringRoundTrip(n / 10);
    }
  }

  /** Different numbers render differently. */
  lemma NatToStringInjective(m: nat, n: nat)
    requires m != n
    ensures NatToString(m) != NatToString(n)
  {
    NatToStringRoundTrip(m);
    NatToStringRoundTrip(n);
  }
}
