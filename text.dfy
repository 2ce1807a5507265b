/**
 * Character classes and string helpers with the meaning Python 3 gives them
 * on `str` values: the `\d` / `\D` classes of the `re` module, `str.isspace`,
 * `s.split(sep)[0]` and `str.strip()`.
 */
module Text {

  /** Python's `\d` on a `str` pattern: a Unicode decimal digit (category Nd).
      The blocks listed are ASCII, Arabic-Indic, Extended Arabic-Indic (the
      digits Urdu is written with), Devanagari and the fullwidth forms. */
  predicate IsDigit(c: char): (b: bool)
    ensures '0' <= c <= '9' ==> b
    ensures b ==> c != '-' && c != '/' && c != '\n'
  {
    || '0' <= c <= '9'
    || '\U{0660}' <= c <= '\U{0669}'
    || '\U{06F0}' <= c <= '\U{06F9}'
    || '\U{0966}' <= c <= '\U{096F}'
    || '\U{FF10}' <= c <= '\U{FF19}'
  }

  /** Python's `str.isspace` for one character: the code points whose
      bidirectional class is WS, B or S, or whose category is Zs. */
  predicate IsSpace(c: char): (b: bool)
    ensures c == ' ' ==> b
    ensures b ==> c != '/' && c != '-'
  {
    || c == ' ' || c == '\t' || c == '\n' || c == '\r'
    || c == '\U{000B}' || c == '\U{000C}'
    || '\U{001C}' <= c <= '\U{001F}'
    || c == '\U{0085}' || c == '\U{00A0}' || c == '\U{1680}'
    || '\U{2000}' <= c <= '\U{200A}'
    || c == '\U{2028}' || c == '\U{2029}' || c == '\U{202F}'
    || c == '\U{205F}' || c == '\U{3000}'
  }

  predicate AllDigits(s: string) {
    forall i :: 0 <= i < |s| ==> IsDigit(s[i])
  }

  /** What one character contributes to `Digits`. */
  function DigitPart(c: char): (r: string)
    ensures AllDigits(r) && |r| <= 1
  {
    if IsDigit(c) then [c] else []
  }

  /** `re.sub(r'\D', '', s)`: the digits of `s`, in order. */
  function Digits(s: string): (d: string)
    ensures AllDigits(d) && |d| <= |s|
  {
    if s == [] then [] else DigitPart(s[0]) + Digits(s[1..])
  }

  lemma {:induction false} DigitsOfConcat(a: string, b: string)
    ensures Digits(a + b) == Digits(a) + Digits(b)
  {
    if a == [] {
      assert a + b == b;
    } else {
      calc {
        Digits(a + b);
        DigitPart(a[0]) + Digits((a + b)[1..]);
        { assert (a + b)[1..] == a[1..] + b; }
        DigitPart(a[0]) + Digits(a[1..] + b);
        { DigitsOfConcat(a[1..], b); }
        DigitPart(a[0]) + (Digits(a[1..]) + Digits(b));
        Digits(a) + Digits(b);
      }
    }
  }

  /** A hyphen between two strings contributes nothing to their digits. */
  lemma DigitsAroundHyphen(a: string, b: string)
    ensures Digits(a + "-" + b) == Digits(a) + Digits(b)
  {
    var h := ['-'] + b;
    assert a + "-" + b == a + h;
    DigitsOfConcat(a, h);
    assert h[1..] == b;
    assert DigitPart('-') == [];
  }

  /** Removing the non-digits of a string that has none changes nothing. */
  lemma {:induction false} DigitsOfDigits(s: string)
    requires AllDigits(s)
    ensures Digits(s) == s
  {
    if s != [] {
      DigitsOfDigits(s[1..]);
    }
  }

  /** A string with no digit at all contributes nothing. */
  lemma {:induction false} DigitsOfNonDigits(s: string)
    requires forall i :: 0 <= i < |s| ==> !IsDigit(s[i])
    ensures Digits(s) == []
  {
    if s != [] {
      DigitsOfNonDigits(s[1..]);
    }
  }

  /** `s.split(sep)[0]`: the text before the first `sep`, or all of `s`. */
  function BeforeFirst(s: string, sep: char): (r: string)
    ensures sep !in r
    ensures r <= s
    ensures |r| < |s| ==> s[|r|] == sep
  {
    if s == [] || s[0] == sep then []
    else [s[0]] + BeforeFirst(s[1..], sep)
  }

  /** Whatever follows the first separator is irrelevant. */
  lemma {:induction false} BeforeFirstOfConcat(a: string, sep: char, b: string)
    requires sep !in a
    ensures BeforeFirst(a + [sep] + b, sep) == a
  {
    if a != [] {
      assert (a + [sep] + b)[1..] == a[1..] + [sep] + b;
      BeforeFirstOfConcat(a[1..], sep, b);
    }
  }

  /** Every character of `s` is whitespace. */
  predicate AllSpace(s: string) {
    forall i :: 0 <= i < |s| ==> IsSpace(s[i])
  }

  /** From index `i` forward, the first index that is not whitespace
      (or `|s|`). */
  function SkipForward(s: string, i: nat): (j: nat)
    requires i <= |s|
    ensures i <= j <= |s|
    ensures forall k :: i <= k < j ==> IsSpace(s[k])
    ensures j < |s| ==> !IsSpace(s[j])
    decreases |s| - i
  {
    if i < |s| && IsSpace(s[i]) then SkipForward(s, i + 1) else i
  }

  /** From the end `j` backward, but not below `lo`, the index just after
      the last character that is not whitespace (or `lo`). */
  function SkipBackward(s: string, lo: nat, j: nat): (k: nat)
    requires lo <= j <= |s|
    ensures lo <= k <= j
    ensures forall m :: k <= m < j ==> IsSpace(s[m])
    ensures k > lo ==> !IsSpace(s[k - 1])
    decreases j
  {
    if j > lo && IsSpace(s[j - 1]) then SkipBackward(s, lo, j - 1) else j
  }

  /** `r` is the slice of `s` that starts at `i`, and everything of `s`
      before and after that slice is whitespace. */
  predicate StrippedAt(s: string, r: string, i: int) {
    && 0 <= i <= |s| - |r|
    && r == s[i..i + |r|]
    && (forall k :: 0 <= k < i ==> IsSpace(s[k]))
    && (forall k :: i + |r| <= k < |s| ==> IsSpace(s[k]))
  }

  /** `str.strip()` with no argument: skip whitespace from the left, then
      from the right, and take what lies between. The result is a slice of
      `s` that neither starts nor ends with whitespace, and everything cut
      off is whitespace. */
  function Strip(s: string): (r: string)
    ensures exists i :: StrippedAt(s, r, i)
    ensures r != [] ==> !IsSpace(r[0]) && !IsSpace(r[|r| - 1])
  {
    var i := SkipForward(s, 0);
    var j := SkipBackward(s, i, |s|);
    assert StrippedAt(s, s[i..j], i);
    s[i..j]
  }

  /** Stripping a word that neither starts nor ends with whitespace, once
      whitespace has been added around it, gives back the word. */
  lemma StripPadded(pre: string, w: string, post: string)
    requires AllSpace(pre) && AllSpace(post)
    requires w != [] && !IsSpace(w[0]) && !IsSpace(w[|w| - 1])
    ensures Strip(pre + w + post) == w
  {
    var s := pre + w + post;
    var e := |pre| + |w|;
    assert s[|pre|] == w[0] && s[e - 1] == w[|w| - 1];
    assert forall k :: 0 <= k < |pre| ==> s[k] == pre[k];
    assert forall k :: e <= k < |s| ==> s[k] == post[k - e];
    var i := SkipForward(s, 0);
    assert i == |pre|;
    var j := SkipBackward(s, i, |s|);
    assert j == e;
    assert s[i..j] == w;
  }

  /** Stripping a string of whitespace only leaves nothing. */
  lemma StripAllSpace(s: string)
    requires AllSpace(s)
    ensures Strip(s) == []
  {
    assert SkipForward(s, 0) == |s|;
  }

  /** Stripping twice is the same as stripping once. */
  lemma StripIdempotent(s: string)
    ensures Strip(Strip(s)) == Strip(s)
  {
    var r := Strip(s);
    if r != [] {
      assert [] + r + [] == r;
      StripPadded([], r, []);
    }
  }
}
