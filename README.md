# E-Mandi registration form — a Dafny model

The E-Mandi registration page collects seven fields: name, phone, CNIC
(the Pakistani national identity number), region, parentage, gender and
address. It checks the phone number and the CNIC against fixed patterns. It
reformats the CNIC field each time it is edited. When the form is accepted,
it appends one row to the `registrations` table. This project models that
logic and proves what it guarantees:

- `text.dfy` (module `Text`): the character classes and string operations
  the page relies on, with Python's meaning. `IsDigit` is the `\d` class,
  `IsSpace` is `str.isspace`, `Digits` removes every non-digit,
  `BeforeFirst` is `split(sep)[0]` and `Strip` is `str.strip()`, which
  skips whitespace from the left and then from the right and keeps the
  slice in between.
- `validators.dfy` (module `Validators`): `validate_phone` and
  `validate_cnic`, each defined by what its pattern means. Each validator
  has a lemma that characterises exactly which strings it accepts.
- `cnic_format.dfy` (module `CnicFormat`): `format_cnic`. It keeps at most
  13 digits and inserts the hyphens of `ddddd-ddddddd-d` once enough digits
  exist. Lemmas prove digit preservation, hyphen placement, the length
  bound and idempotence. Another lemma proves the output validates exactly
  when the input had at least 13 digits.
- `submission.dfy` (module `Submission`): the submit decision taken out of
  `main`. It runs three checks in priority order (all fields filled, then
  phone, then CNIC) and either reports the first failing check or builds
  the record. In the record, the gender is cut down to its category label.
- `form_session.dfy` (module `FormSession`): one browser session as a class.
  Its fields are the `form_submitted` flag, the stored CNIC and the rows of
  the table. Each call to `Run` is one run of the page script.

Behaviour of the code that the model keeps, although the form's own
messages describe it differently or not at all:

- `$` under `re.match` also matches just before one final newline. So
  `"03001234567\n"` is a valid phone number and `"12345-1234567-1\n"` a
  valid CNIC (`Validators.ValidatorsDoNotNormalize`). The error message at
  emandi_register.py:101 asks for the format `03001234567`, which has no
  newline.
- `\d` and `\D` on a `str` are Unicode decimal digits, not only `0`–`9`.
  `IsDigit` covers the ASCII, Arabic-Indic, Extended Arabic-Indic (Urdu),
  Devanagari and fullwidth digit blocks.
- The CNIC comparison comes before the submit check in the script. If the
  CNIC field differs from the stored value when Submit is pressed, that run
  only stores the formatted CNIC and re-runs; nothing is validated and
  nothing is saved (`FormSession.RegistrationPage.Run`).
- The stored gender is whatever `split('/')[0].strip()` yields. The select
  box's three labels yield `Male`, `Female` and `Other`. An arbitrary
  string such as `" / x"` yields an empty label
  (`Submission.GenderLabelCanBeEmpty`), so
  the closed set holds only because the select box offers nothing else.

## Model

| member | source | states |
|---|---|---|
| `Text.IsDigit` | emandi_register.py:48-56 | the `\d` class: every ASCII digit is in it, and no digit is `-`, `/` or a newline |
| `Text.IsSpace` | emandi_register.py:111 | the whitespace `strip()` removes: the space is in it, `/` and `-` are not |
| `Text.Digits` | emandi_register.py:56 | the result consists of digits only and is no longer than the input; with `DigitsOfConcat`, `DigitsOfDigits` and `DigitsOfNonDigits` it is the filter that keeps exactly the digits, in order |
| `Text.DigitsOfConcat` | emandi_register.py:56 | the digits of a concatenation are the digits of each part, concatenated |
| `Text.DigitsOfDigits` | emandi_register.py:56 | a string of digits only is kept whole |
| `Text.DigitsOfNonDigits` | emandi_register.py:56 | a string without digits is removed entirely |
| `Text.BeforeFirst` | emandi_register.py:111 | the result is a prefix of the input with no separator in it, and the input has the separator right after it unless the whole input was taken |
| `Text.Strip` | emandi_register.py:111 | the result is a slice of the input that neither starts nor ends with whitespace, and everything cut off on either side is whitespace |
| `Text.StripPadded` | emandi_register.py:111 | stripping a word padded with whitespace on both sides gives back the word |
| `Text.StripAllSpace` | emandi_register.py:111 | stripping a string of whitespace only gives the empty string |
| `Text.StripIdempotent` | emandi_register.py:111 | stripping a stripped string changes nothing |
| `Validators.ValidatePhone` | emandi_register.py:47-49 | an accepted phone is 11 characters (12 with a final newline), starts with `03`, and has digits at indices 2 to 10 |
| `Validators.ValidateCnic` | emandi_register.py:51-53 | an accepted CNIC is 15 characters (16 with a final newline) with hyphens at indices 5 and 13 |
| `Validators.ValidatePhoneExactly` | emandi_register.py:47-49 | a phone is accepted iff it is `0`, `3` and nine digits, 11 characters, optionally followed by one newline |
| `Validators.ValidateCnicExactly` | emandi_register.py:51-53 | a CNIC is accepted iff it has hyphens at indices 5 and 13 and digits at the other 13 of 15 positions, optionally followed by one newline |
| `Validators.PlaceholdersValidate` | emandi_register.py:83-84 | the placeholder values `03001234567` and `12345-1234567-1` pass their validators |
| `Validators.ValidatorsDoNotNormalize` | emandi_register.py:47-53 | a leading space, a country code or missing hyphens are refused; one trailing newline is accepted |
| `CnicFormat.KeptDigits` | emandi_register.py:56-58 | the kept digits are a prefix of the input's digits, of length `min(13, n)` |
| `CnicFormat.Hyphenate` | emandi_register.py:59-63 | a hyphen sits at index 5 iff there are more than 5 digits and at index 13 iff there are 13; every other character is a digit; the length is the digit count plus the hyphens |
| `CnicFormat.FormatCnic` | emandi_register.py:55-63 | the output holds only digits and hyphens and is at most 15 characters long |
| `CnicFormat.FormatCnicKeepsDigits` | emandi_register.py:56-58 | the output's digits are the first `min(13, n)` digits of the input, in order |
| `CnicFormat.FormatCnicHyphens` | emandi_register.py:59-63 | with `k` digits kept: no hyphen for `k <= 5`; one hyphen at index 5 and length `k + 1` for `6 <= k <= 12`; hyphens at indices 5 and 13 and length 15 for `k = 13` |
| `CnicFormat.FormatCnicIdempotent` | emandi_register.py:55-63 | formatting a formatted value returns it unchanged |
| `CnicFormat.FormatCnicValidates` | emandi_register.py:51-63 | the formatted value passes `validate_cnic` iff the input had at least 13 digits |
| `CnicFormat.FormatCnicIgnoresNonDigits` | emandi_register.py:56 | inputs with the same digits in the same order are formatted alike |
| `CnicFormat.FormatCnicOfLongDigitString` | emandi_register.py:57-60 | a string of 13 or more digits is formatted as its first 13 digits grouped 5-7-1 |
| `CnicFormat.FormatCnicOfMidDigitString` | emandi_register.py:61-62 | a string of six to twelve digits gets exactly one hyphen, after its fifth digit |
| `CnicFormat.ExampleFormatTruncates` | emandi_register.py:57-60 | `1234512345671999` is formatted as `12345-1234567-1` |
| `CnicFormat.ExampleFormatKeepsShortInput` | emandi_register.py:61-63 | `123` is left as it is |
| `CnicFormat.ExampleFormatHyphenatesTenDigits` | emandi_register.py:61-62 | `1234567890` becomes `12345-67890` |
| `Submission.GenderLabel` | emandi_register.py:111 | the stored gender contains no `/` and neither starts nor ends with whitespace |
| `Submission.GenderLabelOfBilingual` | emandi_register.py:111 | a label `category / urdu` yields `category` |
| `Submission.GenderLabelOfMale` | emandi_register.py:92 | the `Male` option is stored as `Male` |
| `Submission.GenderLabelOfFemale` | emandi_register.py:92 | the `Female` option is stored as `Female` |
| `Submission.GenderLabelOfOther` | emandi_register.py:92 | the `Other` option is stored as `Other` |
| `Submission.GenderOptionCategory` | emandi_register.py:92-111 | every non-empty select-box option is stored as Male, Female or Other |
| `Submission.GenderLabelCanBeEmpty` | emandi_register.py:111 | a gender string made of any whitespace, then `/`, then anything is stored as the empty string |
| `Submission.AllFilled` | emandi_register.py:98 | the form counts as filled iff none of its seven fields is the empty string |
| `Submission.ToRegistration` | emandi_register.py:105-113 | the record copies name, phone, CNIC, region, parentage and address unchanged; its gender has no `/` and no whitespace at either end |
| `Submission.Decide` | emandi_register.py:97-113 | a rejection names a failing check and all checks of higher priority (emptiness, then phone, then CNIC) pass; acceptance iff no check fails; an accepted record copies six fields and stores the gender's category |
| `Submission.AcceptedIsWellFormed` | emandi_register.py:92-113 | an accepted form whose gender is a select-box option gives a record with all fields filled, a valid phone, a valid CNIC and a gender among Male, Female, Other |
| `Submission.ExampleDecideAccepts` | emandi_register.py:97-113 | a filled form with the placeholder phone and CNIC is accepted and stores gender `Male` |
| `FormSession.RegistrationPage.constructor` | emandi_register.py:71-75 | a session starts with the form shown, an empty CNIC and the table as it was |
| `FormSession.RegistrationPage.Save` | emandi_register.py:36-45 | saving appends exactly the given row |
| `FormSession.RegistrationPage.Reformat` | emandi_register.py:85-87 | the stored CNIC becomes the formatted value of the widget and stays a fixed point of the formatter |
| `FormSession.RegistrationPage.Submit` | emandi_register.py:97-116 | the decision is the submit decision; on acceptance exactly the accepted, well-formed record is appended and the success view is set; on rejection nothing changes |
| `FormSession.RegistrationPage.Run` | emandi_register.py:84-116 | a changed CNIC is stored formatted and nothing else happens; a click on an unchanged CNIC applies the submit decision, appending exactly one well-formed row and switching to the success view on acceptance and changing nothing on rejection; the stored CNIC stays a fixed point of the formatter |
| `FormSession.RegistrationPage.SubmitAnother` | emandi_register.py:122-125 | back to the form with an empty CNIC; the table is unchanged |

## Left out

- Page layout, CSS, columns, widgets and the messages shown (`st.error`, `st.success`, `st.balloons`). These are presentation only. `Run` returns which message applies instead of showing it.
- `init_db`: the file-existence check and the `CREATE TABLE`. These are file-system and SQLite calls. The table is a sequence of rows that already exists when a session starts.
- Failures of SQLite (a locked or unwritable file). `Save` always succeeds, because the failure is in a foreign library with no visible contract.
- `st.rerun()` and widget identity. The model assumes that after a re-run the CNIC widget shows the stored value. It also does not model that a widget inside a form reports new values only when Submit is pressed, so `Run` takes the click as a separate input.
- `Text.IsDigit`: covers five of the Unicode decimal-digit blocks, not all of them. A digit from another script (Thai, Bengali, ...) is a non-digit in the model, while Python's `\d` accepts it.
- `FormSession.RegistrationPage.Run`: requires the gender to be one of the select box's four options, because that widget yields nothing else. `Submission.Decide` takes any string.
