/**
 * The two field validators of the registration form. Each is a regular
 * expression applied with `re.match`, modelled by what the pattern means:
 * `^` anchors at the start, and `$` accepts the end of the string or a single
 * final newline before it.
 */
module Validators {
  import opened Text

  /** `s` is `"03"` followed by nine digits and nothing else. */
  predicate PhoneShape(s: string) {
    |s| == 11 && s[0] == '0' && s[1] == '3' && AllDigits(s[2..])
  }

  /** `s` is five digits, `-`, seven digits, `-`, one digit and nothing else. */
  predicate CnicShape(s: string) {
    && |s| == 15
    && AllDigits(s[..5]) && s[5] == '-'
    && AllDigits(s[6..13]) && s[13] == '-'
    && AllDigits(s[14..])
  }

  /** `validate_phone`: the pattern `^03\d{9}$`, matched from the start. */
  predicate ValidatePhone(phone: string): (ok: bool)
    ensures ok ==> (|phone| == 11 || |phone| == 12) && phone[0] == '0' && phone[1] == '3'
    ensures ok ==> forall i :: 2 <= i < 11 ==> IsDigit(phone[i])
  {
    || PhoneShape(phone)
    || (phone != [] && phone[|phone| - 1] == '\n' && PhoneShape(phone[..|phone| - 1]))
  }

  /** `validate_cnic`: the pattern `^\d{5}-\d{7}-\d{1}$`, matched from the start. */
  predicate ValidateCnic(cnic: string): (ok: bool)
    ensures ok ==> (|cnic| == 15 || |cnic| == 16) && cnic[5] == '-' && cnic[13] == '-'
  {
    || CnicShape(cnic)
    || (cnic != [] && cnic[|cnic| - 1] == '\n' && CnicShape(cnic[..|cnic| - 1]))
  }

  /** A phone number is accepted exactly when it is `03` and nine digits,
      11 characters, optionally followed by one newline. */
  lemma ValidatePhoneExactly(s: string)
    ensures ValidatePhone(s) <==>
      && (|s| == 11 || (|s| == 12 && s[11] == '\n'))
      && s[0] == '0' && s[1] == '3'
      && (forall i :: 2 <= i < 11 ==> IsDigit(s[i]))
  {
    if |s| == 12 && s[11] == '\n' {
      var t := s[..11];
      assert forall i :: 2 <= i < 11 ==> t[2..][i - 2] == s[i];
      assert !PhoneShape(s);
    } else if |s| == 11 {
      assert forall i :: 2 <= i < 11 ==> s[2..][i - 2] == s[i];
      assert s[10] != '\n' ==> !PhoneShape(s[..10]);
    }
  }

  /** A CNIC is accepted exactly when it is `ddddd-ddddddd-d`, 15
      characters, optionally followed by one newline. */
  lemma ValidateCnicExactly(s: string)
    ensures ValidateCnic(s) <==>
      && (|s| == 15 || (|s| == 16 && s[15] == '\n'))
      && (forall i :: 0 <= i < 15 ==> if i == 5 || i == 13 then s[i] == '-' else IsDigit(s[i]))
  {
    if |s| == 16 && s[15] == '\n' {
      CnicShapeAt(s[..15]);
      assert !CnicShape(s);
    } else if |s| == 15 {
      CnicShapeAt(s);
      assert !CnicShape(s[..14]);
    }
  }

  /** `CnicShape` position by position. */
  lemma CnicShapeAt(s: string)
    requires |s| == 15
    ensures CnicShape(s) <==>
      forall i :: 0 <= i < 15 ==> if i == 5 || i == 13 then s[i] == '-' else IsDigit(s[i])
  {
    assert forall i :: 0 <= i < 5 ==> s[..5][i] == s[i];
    assert forall i :: 6 <= i < 13 ==> s[6..13][i - 6] == s[i];
    assert s[14..][0] == s[14];
  }

  /** The examples of valid input that the form's placeholders show. */
  lemma PlaceholdersValidate()
    ensures ValidatePhone("03001234567")
    ensures ValidateCnic("12345-1234567-1")
  {
    assert PhoneShape("03001234567");
    CnicShapeAt("12345-1234567-1");
  }

  /** Neither validator normalizes: a leading space or a missing hyphen is
      refused, while the one final newline `$` tolerates is accepted. */
  lemma ValidatorsDoNotNormalize()
    ensures !ValidatePhone(" 03001234567")
    ensures !ValidatePhone("+923001234567")
    ensures !ValidateCnic("1234512345671")
    ensures ValidatePhone("03001234567\n")
    ensures ValidateCnic("12345-1234567-1\n")
  {
    ValidatePhoneExactly(" 03001234567");
    ValidatePhoneExactly("+923001234567");
    ValidateCnicExactly("1234512345671");
    ValidatePhoneExactly("03001234567\n");
    ValidateCnicExactly("12345-1234567-1\n");
  }
}
