/**
 * The decision the registration form takes when Submit is pressed: check the
 * seven fields in a fixed order and either name the first check that failed
 * or build the record that is stored.
 */
module Submission {
  import opened Text
  import opened Validators

  /** The seven raw values of the form's widgets, as typed or selected. */
  datatype Form = Form(
    name: string, phone: string, cnic: string, region: string,
    parentage: string, gender: string, address: string)

  /** One row of the `registrations` table, columns in table order. */
  datatype Registration = Registration(
    name: string, phone: string, cnic: string, region: string,
    parentage: string, gender: string, address: string)

  /** The three messages the form can show instead of submitting. */
  datatype SubmitError = MissingField | InvalidPhone | InvalidCnic

  datatype Decision = Rejected(error: SubmitError) | Accepted(record: Registration)

  /** A bilingual select-box label: the English category, ` / `, and the
      Urdu word for it. */
  function BilingualLabel(category: string, urdu: string): string {
    category + " / " + urdu
  }

  const MaleOption := BilingualLabel("Male", "\U{0645}\U{0631}\U{062F}")
  const FemaleOption := BilingualLabel("Female", "\U{0639}\U{0648}\U{0631}\U{062A}")
  const OtherOption := BilingualLabel("Other", "\U{062F}\U{06CC}\U{06AF}\U{0631}")

  /** The options of the gender select box, the first one empty. */
  const GenderOptions: seq<string> := ["", MaleOption, FemaleOption, OtherOption]

  /** The category labels a stored gender can have. */
  const GenderCategories: set<string> := {"Male", "Female", "Other"}

  /** The seven fields in the order `all([...])` lists them. */
  function Fields(f: Form): seq<string> {
    [f.name, f.phone, f.cnic, f.region, f.parentage, f.gender, f.address]
  }

  /** Python truthiness of each field, as `all([...])` tests it: every
      field is a non-empty string. */
  predicate AllFilled(f: Form): (ok: bool)
    ensures ok <==> [] !in Fields(f)
  {
    && f.name != [] && f.phone != [] && f.cnic != [] && f.region != []
    && f.parentage != [] && f.gender != [] && f.address != []
  }

  /** Whether the check that reports `e` fails on `f`. */
  predicate Fails(f: Form, e: SubmitError) {
    match e
    case MissingField => !AllFilled(f)
    case InvalidPhone => !ValidatePhone(f.phone)
    case InvalidCnic => !ValidateCnic(f.cnic)
  }

  /** The order in which the checks run: emptiness, phone, CNIC. */
  function Priority(e: SubmitError): nat {
    match e
    case MissingField => 0
    case InvalidPhone => 1
    case InvalidCnic => 2
  }

  /** The category part of a select-box label: the text before the first
      `/`, without surrounding whitespace. */
  function GenderLabel(g: string): (r: string)
    ensures '/' !in r
    ensures r != [] ==> !IsSpace(r[0]) && !IsSpace(r[|r| - 1])
  {
    Strip(BeforeFirst(g, '/'))
  }

  /** The record built from an accepted form. */
  function ToRegistration(f: Form): (r: Registration)
    ensures && r.name == f.name && r.phone == f.phone && r.cnic == f.cnic
            && r.region == f.region && r.parentage == f.parentage
            && r.address == f.address
    ensures '/' !in r.gender
    ensures r.gender != [] ==> !IsSpace(r.gender[0]) && !IsSpace(r.gender[|r.gender| - 1])
  {
    Registration(f.name, f.phone, f.cnic, f.region, f.parentage,
                 GenderLabel(f.gender), f.address)
  }

  /** The submit decision. A rejection names a check that fails and every
      check of higher priority passes; a form is accepted exactly when no
      check fails, and then every field but gender is stored as given. */
  function Decide(f: Form): (d: Decision)
    ensures d.Rejected? ==>
      && Fails(f, d.error)
      && forall e :: Priority(e) < Priority(d.error) ==> !Fails(f, e)
    ensures d.Accepted? <==> forall e :: !Fails(f, e)
    ensures d.Accepted? ==>
      && d.record.name == f.name && d.record.phone == f.phone
      && d.record.cnic == f.cnic && d.record.region == f.region
      && d.record.parentage == f.parentage && d.record.address == f.address
      && d.record.gender == GenderLabel(f.gender)
  {
    if !AllFilled(f) then Rejected(MissingField)
    else if !ValidatePhone(f.phone) then Rejected(InvalidPhone)
    else if !ValidateCnic(f.cnic) then Rejected(InvalidCnic)
    else Accepted(ToRegistration(f))
  }

  /** What a stored row satisfies when its gender came from the select box:
      every field is filled, phone and CNIC validate, and the gender is one
      of the three categories. */
  predicate WellFormed(r: Registration) {
    && r.name != [] && r.phone != [] && r.cnic != [] && r.region != []
    && r.parentage != [] && r.gender in GenderCategories && r.address != []
    && ValidatePhone(r.phone) && ValidateCnic(r.cnic)
  }

  /** A bilingual label yields its category, whatever the Urdu part. */
  lemma GenderLabelOfBilingual(category: string, urdu: string)
    requires category != [] && '/' !in category
    requires !IsSpace(category[0]) && !IsSpace(category[|category| - 1])
    ensures GenderLabel(BilingualLabel(category, urdu)) == category
  {
    assert BilingualLabel(category, urdu) == (category + " ") + ['/'] + (" " + urdu);
    BeforeFirstOfConcat(category + " ", '/', " " + urdu);
    assert category + " " == [] + category + " ";
    StripPadded([], category, " ");
  }

  /** Each non-empty select-box label maps to its category. */
  lemma GenderLabelOfMale()
    ensures GenderLabel(MaleOption) == "Male"
  {
    GenderLabelOfBilingual("Male", "\U{0645}\U{0631}\U{062F}");
  }

  lemma GenderLabelOfFemale()
    ensures GenderLabel(FemaleOption) == "Female"
  {
    GenderLabelOfBilingual("Female", "\U{0639}\U{0648}\U{0631}\U{062A}");
  }

  lemma GenderLabelOfOther()
    ensures GenderLabel(OtherOption) == "Other"
  {
    GenderLabelOfBilingual("Other", "\U{062F}\U{06CC}\U{06AF}\U{0631}");
  }

  /** An accepted form whose gender came from the select box yields a
      well-formed row. */
  lemma AcceptedIsWellFormed(f: Form)
    requires f.gender in GenderOptions
    requires Decide(f).Accepted?
    ensures WellFormed(Decide(f).record)
  {
    assert !Fails(f, MissingField) && !Fails(f, InvalidPhone) && !Fails(f, InvalidCnic);
    GenderOptionCategory(f.gender);
  }

  /** Every non-empty select-box option is stored as one of the three
      categories. */
  lemma GenderOptionCategory(g: string)
    requires g in GenderOptions && g != []
    ensures GenderLabel(g) in GenderCategories
  {
    if g == MaleOption {
      GenderLabelOfMale();
    } else if g == FemaleOption {
      GenderLabelOfFemale();
    } else {
      GenderLabelOfOther();
    }
  }

  /** With a gender that does not come from the select box, the stored
      category can be empty: whatever follows a `/` that only whitespace
      precedes is cut off, and the whitespace is stripped. */
  lemma GenderLabelCanBeEmpty(pre: string, rest: string)
    requires AllSpace(pre)
    ensures GenderLabel(pre + "/" + rest) == ""
  {
    assert forall k :: 0 <= k < |pre| ==> pre[k] != '/';
    BeforeFirstOfConcat(pre, '/', rest);
    StripAllSpace(pre);
  }

  /** The end-to-end example: a filled form with the placeholder phone and
      CNIC is accepted and stores only the category of the gender. */
  lemma ExampleDecideAccepts(f: Form)
    requires f == Form("Ali", "03001234567", "12345-1234567-1", "Lahore",
                       "Ahmed", MaleOption, "Street 1")
    ensures Decide(f) == Accepted(Registration("Ali", "03001234567",
      "12345-1234567-1", "Lahore", "Ahmed", "Male", "Street 1"))
  {
    PlaceholdersValidate();
    GenderLabelOfMale();
  }
}
