/**
 * `format_cnic`, the reformatter the registration form applies to the CNIC
 * field after every edit: keep the digits, at most thirteen of them, and put
 * the hyphens of `ddddd-ddddddd-d` in as soon as enough digits exist to
 * reach each one.
 */
module CnicFormat {
  import opened Text
  import opened Validators

  /** The number of digits a CNIC has. */
  const CnicDigits := 13

  function Min(a: int, b: int): int {
    if a <= b then a else b
  }

  /** The digits of `x` that survive formatting: the first thirteen. */
  function KeptDigits(x: string): (d: string)
    ensures |d| == Min(CnicDigits, |Digits(x)|)
    ensures d <= Digits(x) && AllDigits(d)
  {
    var all := Digits(x);
    if |all| > CnicDigits then all[..CnicDigits] else all
  }

  /** The hyphen-inserting step of `format_cnic`: the digit string `d` of
      at most thirteen digits, with a hyphen after its fifth digit when it
      has a sixth, and one after its twelfth when it has a thirteenth. */
  function Hyphenate(d: string): (r: string)
    requires AllDigits(d) && |d| <= CnicDigits
    ensures |r| == |d| + (if |d| > 12 then 2 else if |d| > 5 then 1 else 0)
    ensures forall i :: 0 <= i < |r| ==>
      (r[i] == '-' <==> (i == 5 && |d| > 5) || (i == 13 && |d| > 12))
    ensures forall i :: 0 <= i < |r| ==> r[i] == '-' || IsDigit(r[i])
  {
    if |d| > 12 then d[..5] + "-" + d[5..12] + "-" + d[12..]
    else if |d| > 5 then d[..5] + "-" + d[5..]
    else d
  }

  /** `format_cnic`. Its output is made of digits and hyphens only and is
      never longer than the 15 characters of a complete CNIC. */
  function FormatCnic(x: string): (r: string)
    ensures |r| <= 15
    ensures forall i :: 0 <= i < |r| ==> r[i] == '-' || IsDigit(r[i])
  {
    Hyphenate(KeptDigits(x))
  }

  /** Removing the hyphens again gives back the digits that went in. */
  lemma DigitsOfHyphenate(d: string)
    requires AllDigits(d) && |d| <= CnicDigits
    ensures Digits(Hyphenate(d)) == d
  {
    DigitsOfDigits(d);
    if |d| > 12 {
      var a, b, c := d[..5], d[5..12], d[12..];
      assert d == a + b + c;
      DigitsAroundHyphen(a + "-" + b, c);
      DigitsAroundHyphen(a, b);
      DigitsOfConcat(a + b, c);
      DigitsOfConcat(a, b);
    } else if |d| > 5 {
      var a, b := d[..5], d[5..];
      assert d == a + b;
      DigitsAroundHyphen(a, b);
      DigitsOfConcat(a, b);
    }
  }

  /** The digits of the output are the first `min(13, n)` digits of the
      input, in their original order, where `n` counts the input's digits. */
  lemma FormatCnicKeepsDigits(x: string)
    ensures Digits(FormatCnic(x)) == Digits(x)[..Min(CnicDigits, |Digits(x)|)]
  {
    DigitsOfHyphenate(KeptDigits(x));
  }

  /** Where the hyphens go, by the number `k` of digits kept: none up to
      five digits, one at index 5 from six to twelve, and two, at indices 5
      and 13, for a full thirteen. */
  lemma FormatCnicHyphens(x: string)
    ensures var k := Min(CnicDigits, |Digits(x)|);
      var r := FormatCnic(x);
      && (k <= 5 ==> r == Digits(x)[..k])
      && (6 <= k <= 12 ==>
            && |r| == k + 1 && r[5] == '-'
            && forall i :: 0 <= i < |r| && i != 5 ==> IsDigit(r[i]))
      && (k == 13 ==>
            && |r| == 15 && r[5] == '-' && r[13] == '-'
            && forall i :: 0 <= i < |r| && i != 5 && i != 13 ==> IsDigit(r[i]))
  {
  }

  /** Formatting an already formatted value changes nothing, which is what
      lets the form's re-run settle after one reformatting. */
  lemma FormatCnicIdempotent(x: string)
    ensures FormatCnic(FormatCnic(x)) == FormatCnic(x)
  {
    var d := KeptDigits(x);
    DigitsOfHyphenate(d);
    assert KeptDigits(FormatCnic(x)) == d;
  }

  /** The formatter yields a CNIC the validator accepts exactly when the
      input had at least thirteen digits. */
  lemma FormatCnicValidates(x: string)
    ensures ValidateCnic(FormatCnic(x)) <==> |Digits(x)| >= CnicDigits
  {
    var r := FormatCnic(x);
    ValidateCnicExactly(r);
    if |Digits(x)| >= CnicDigits {
      assert |r| == 15;
    } else {
      assert |r| < 15 && (|r| == 0 || r[|r| - 1] != '\n');
    }
  }

  /** On input that is all digits the formatter only truncates and
      inserts hyphens. */
  lemma KeptDigitsOfDigitString(s: string)
    requires AllDigits(s)
    ensures KeptDigits(s) == s[..Min(CnicDigits, |s|)]
  {
    DigitsOfDigits(s);
  }

  /** Only the digits of the input matter: two inputs with the same digits
      in the same order are formatted alike, whatever else they contain. */
  lemma FormatCnicIgnoresNonDigits(x: string, y: string)
    requires Digits(x) == Digits(y)
    ensures FormatCnic(x) == FormatCnic(y)
  {
  }

  /** A digit string of thirteen digits or more comes out as its first
      thirteen digits grouped five, seven and one. */
  lemma FormatCnicOfLongDigitString(s: string)
    requires AllDigits(s) && |s| >= CnicDigits
    ensures FormatCnic(s) == s[..5] + "-" + s[5..12] + "-" + [s[12]]
  {
    KeptDigitsOfDigitString(s);
    assert KeptDigits(s)[12..] == [s[12]];
  }

  /** A string of six to twelve digits gets one hyphen, after the fifth. */
  lemma FormatCnicOfMidDigitString(s: string)
    requires AllDigits(s) && 5 < |s| <= 12
    ensures FormatCnic(s) == s[..5] + "-" + s[5..]
  {
    KeptDigitsOfDigitString(s);
  }

  /** Worked examples of the formatter: a long input is cut to thirteen
      digits, three digits get no hyphen, ten get one. Each example takes
      its input as a parameter fixed by `requires`, which keeps the proof
      cheap for the solver. */
  lemma ExampleFormatTruncates(x: string)
    requires x == "1234512345671999"
    ensures FormatCnic(x) == "12345-1234567-1"
  {
    FormatCnicOfLongDigitString(x);
    assert x[..5] == "12345" && x[5..12] == "1234567" && x[12] == '1';
  }

  lemma ExampleFormatKeepsShortInput(x: string)
    requires x == "123"
    ensures FormatCnic(x) == "123"
  {
    KeptDigitsOfDigitString(x);
  }

  lemma ExampleFormatHyphenatesTenDigits(x: string)
    requires x == "1234567890"
    ensures FormatCnic(x) == "12345-67890"
  {
    FormatCnicOfMidDigitString(x);
  }
}
