/** The checks app.py runs on submitted forms before it touches the
    database: the create/edit event form (capacity defaulting to 10, the
    category id), sign-up, the profile editor, and the ownership check in
    front of edit and delete. */
module Validation {
  import opened Common

  // ---------------------------------------------------------------------
  // Numbers typed into forms
  // ---------------------------------------------------------------------

  /** Characters Python's str.isnumeric() accepts. The model knows the ASCII
      digits and, standing for the numeric characters that are not decimal
      digits, the superscripts one to three and the vulgar fractions a
      quarter, a half and three quarters. */
  predicate IsNumericChar(c: char) {
    IsDigit(c) || c in {'\U{B2}', '\U{B3}', '\U{B9}', '\U{BC}', '\U{BD}', '\U{BE}'}
  }

  /** str.isnumeric(): false for the empty string. */
  predicate IsNumeric(s: string) {
    |s| > 0 && forall i | 0 <= i < |s| :: IsNumericChar(s[i])
  }

  /** The outcome of turning a form field into a number: its value, the
      form's own "not a number" error, or a ValueError that escapes the route. */
  datatype Parsed = Value(n: int) | Malformed | Raises

  /** `int(s) if s.isnumeric() else <form error>` as app.py writes it
      (app.py:175-176, 189-190, 458-459, 472-473, 789-790). int() accepts
      decimal digits only, so a numeric character that is not one passes the
      guard and then raises. */
  function ParseNumberAsWritten(s: string): (r: Parsed)
    ensures r.Value? ==> r.n >= 0
    ensures r == Raises <==> IsNumeric(s) && !IsDigits(s)
    ensures r == Malformed <==> !IsNumeric(s)
  {
    if IsNumeric(s) then
      if IsDigits(s) then Value(DigitsValue(s)) else Raises
    else Malformed
  }

  /** '²' passes isnumeric() and makes int() raise: the request fails
      instead of showing "must be a non-negative integer". */
  lemma SuperscriptTwoRaises()
    ensures IsNumeric("\U{B2}")
    ensures ParseNumberAsWritten("\U{B2}") == Raises
  {
  }

  /** The guard the code evidently means: a field of ASCII decimal digits
      only, converted to its value and otherwise reported as "not a number".
      Every form check below uses it. */
  function ParseNumber(s: string): (r: Parsed)
    ensures !r.Raises?
    ensures r.Value? <==> IsDigits(s)
    ensures r.Value? ==> r.n >= 0
  {
    if IsDigits(s) then Value(DigitsValue(s)) else Malformed
  }

  /** The two guards agree on every string that the original does not crash on. */
  lemma ParseNumberAgreesUnlessRaising(s: string)
    requires !ParseNumberAsWritten(s).Raises?
    ensures ParseNumber(s) == ParseNumberAsWritten(s)
  {
  }

  /** Every number the site prints is read back as itself. */
  lemma ParseNumberRoundTrip(n: nat)
    ensures ParseNumber(NatToString(n)) == Value(n)
  {
    NatToStringRoundTrip(n);
  }

  /** Capacity: blank means the default of 10. */
  const DefaultCapacity: int := 10

  function ParseCapacity(s: string): (r: Parsed)
    ensures s == "" ==> r == Value(DefaultCapacity)
    ensures s != "" ==> r == ParseNumber(s)
  {
    if s == "" then Value(DefaultCapacity) else ParseNumber(s)
  }

  /** "-5" is rejected as not a non-negative integer; no string reaches the
      "must be non-negative" branch. */
  lemma CapacityNeverNegative(s: string)
    ensures ParseCapacity("-5") == Malformed
    ensures ParseCapacity(s).Value? ==> ParseCapacity(s).n >= 0
  {
    assert !IsDigit('-');
  }

  // ---------------------------------------------------------------------
  // The event form (create_event, app.py:137-193; edit_event, app.py:419-476)
  // ---------------------------------------------------------------------

  /** The fields as submitted, before stripping. */
  datatype EventForm = EventForm(
    title: string, date: string, start: string, end: string,
    city: string, state: string, desc: string, cap: string, cid: string)

  function Stripped(f: EventForm): EventForm {
    EventForm(Trim(f.title), Trim(f.date), Trim(f.start), Trim(f.end),
              Trim(f.city), Trim(f.state), Trim(f.desc), Trim(f.cap), Trim(f.cid))
  }

  /** A form the route accepts: every required field is present once
      stripped, the capacity is blank or a number and the category a number. */
  predicate Acceptable(f: EventForm) {
    var s := Stripped(f);
    s.title != "" && s.date != "" && s.start != "" && s.end != ""
    && s.city != "" && s.state != "" && IsDigits(s.cid)
    && (s.cap == "" || IsDigits(s.cap))
  }

  datatype FormCheck = FormCheck(error: bool, fields: EventForm, cap: Option<int>, cid: Option<int>)

  /** The validation block: successive checks append their messages; the
      capacity defaults to 10 and the category is converted when they parse. */
  method CheckEventForm(f: EventForm) returns (c: FormCheck)
    ensures c.fields == Stripped(f)
    ensures c.error <==> !Acceptable(f)
    ensures !c.error ==> c.cap == Some(ParseCapacity(c.fields.cap).n)
    ensures !c.error ==> c.cid == Some(DigitsValue(c.fields.cid))
  {
    var s := Stripped(f);
    var error := false;
    // Each failed check flashes its message and sets the flag.
    if s.title == "" { error := true; }
    if s.date == "" { error := true; }
    if s.start == "" { error := true; }
    if s.end == "" { error := true; }
    if s.city == "" { error := true; }
    if s.state == "" { error := true; }
    if s.cid == "" { error := true; }

    var cap: Option<int> := None;
    if s.cap != "" {
      var parsed := ParseNumber(s.cap);
      if parsed.Value? {
        cap := Some(parsed.n);
        if parsed.n < 0 { error := true; }
      } else {
        error := true;
      }
    } else {
      cap := Some(DefaultCapacity);
    }

    var cid: Option<int> := None;
    if s.cid != "" {
      var parsed := ParseNumber(s.cid);
      if parsed.Value? {
        cid := Some(parsed.n);
      } else {
        error := true;
      }
    }
    c := FormCheck(error, s, cap, cid);
  }

  // ---------------------------------------------------------------------
  // Sign-up (app.py:632-649)
  // ---------------------------------------------------------------------

  datatype SignupResult =
    | MissingField | NotWellesleyEmail | PasswordMismatch | PasswordTooShort | SignupAccepted

  const CollegeDomain: string := "@wellesley.edu"
  const MinPasswordLength: nat := 8

  predicate EndsWith(s: string, suffix: string) {
    |s| >= |suffix| && s[|s| - |suffix|..] == suffix
  }

  /** A form value Python treats as true: present and not empty. */
  predicate Filled(v: Option<string>) {
    v.Some? && v.value != ""
  }

  /** The sign-up checks, in the route's order; the first that fails decides. */
  function CheckSignup(name: Option<string>, email: Option<string>,
                       password: Option<string>, confirm: Option<string>): (r: SignupResult)
    ensures r == SignupAccepted <==>
              Filled(name) && Filled(email) && Filled(password) && Filled(confirm)
              && EndsWith(email.value, CollegeDomain)
              && password.value == confirm.value
              && |password.value| >= MinPasswordLength
    ensures r == MissingField <==> !(Filled(name) && Filled(email) && Filled(password) && Filled(confirm))
    ensures r == NotWellesleyEmail <==>
              Filled(name) && Filled(email) && Filled(password) && Filled(confirm)
              && !EndsWith(email.value, CollegeDomain)
    ensures r == PasswordMismatch <==>
              Filled(name) && Filled(email) && Filled(password) && Filled(confirm)
              && EndsWith(email.value, CollegeDomain) && password.value != confirm.value
    ensures r == PasswordTooShort <==>
              Filled(name) && Filled(email) && Filled(password) && Filled(confirm)
              && EndsWith(email.value, CollegeDomain) && password.value == confirm.value
              && |password.value| < MinPasswordLength
  {
    if !(Filled(name) && Filled(email) && Filled(password) && Filled(confirm)) then MissingField
    else if !EndsWith(email.value, CollegeDomain) then NotWellesleyEmail
    else if password.value != confirm.value then PasswordMismatch
    else if |password.value| < MinPasswordLength then PasswordTooShort
    else SignupAccepted
  }

  /** A password that is too short is reported only once the email and the
      confirmation are right, and the domain check ignores everything before
      the last fourteen characters. */
  lemma SignupOrder(name: string, local: string, password: string)
    requires name != "" && password != "" && |password| < MinPasswordLength
    ensures CheckSignup(Some(name), Some(local + CollegeDomain), Some(password), Some(password)) == PasswordTooShort
    ensures CheckSignup(Some(name), Some(local + CollegeDomain), Some(password), Some(password + "x")) == PasswordMismatch
  {
    var email := local + CollegeDomain;
    assert email[|email| - |CollegeDomain|..] == CollegeDomain;
    assert password != password + "x" by { assert |password| != |password + "x"|; }
  }

  // ---------------------------------------------------------------------
  // The profile editor (app.py:762-793)
  // ---------------------------------------------------------------------

  datatype ProfileError = NameRequired | NameTooLong | BioTooLong | PronounsTooLong | YearNotNumber

  const MaxNameLength: nat := 30
  const MaxBioLength: nat := 100
  const MaxPronounsLength: nat := 30

  /** The profile checks on the stripped fields; the year is optional. */
  method CheckProfile(name: string, bio: string, year: string, pronouns: string)
    returns (errors: seq<ProfileError>, yearValue: Option<int>)
    ensures errors == [] <==>
              Trim(name) != [] && |Trim(name)| <= MaxNameLength
              && |Trim(bio)| <= MaxBioLength && |Trim(pronouns)| <= MaxPronounsLength
              && (Trim(year) == [] || IsDigits(Trim(year)))
    ensures NameRequired in errors <==> Trim(name) == []
    ensures NameTooLong in errors <==> |Trim(name)| > MaxNameLength
    ensures BioTooLong in errors <==> |Trim(bio)| > MaxBioLength
    ensures PronounsTooLong in errors <==> |Trim(pronouns)| > MaxPronounsLength
    ensures YearNotNumber in errors <==> Trim(year) != [] && !IsDigits(Trim(year))
    ensures yearValue.Some? <==> IsDigits(Trim(year))
    ensures yearValue.Some? ==> yearValue.value == DigitsValue(Trim(year))
  {
    errors, yearValue := CheckStrippedProfile(Trim(name), Trim(bio), Trim(year), Trim(pronouns));
  }

  /** The same checks, once the fields are stripped. */
  method CheckStrippedProfile(n: string, b: string, y: string, p: string)
    returns (errors: seq<ProfileError>, yearValue: Option<int>)
    ensures errors == [] <==>
              n != [] && |n| <= MaxNameLength && |b| <= MaxBioLength && |p| <= MaxPronounsLength
              && (y == [] || IsDigits(y))
    ensures NameRequired in errors <==> n == []
    ensures NameTooLong in errors <==> |n| > MaxNameLength
    ensures BioTooLong in errors <==> |b| > MaxBioLength
    ensures PronounsTooLong in errors <==> |p| > MaxPronounsLength
    ensures YearNotNumber in errors <==> y != [] && !IsDigits(y)
    ensures yearValue.Some? <==> IsDigits(y)
    ensures yearValue.Some? ==> yearValue.value == DigitsValue(y)
  {
    errors := [];
    if n == [] { errors := errors + [NameRequired]; }
    if |n| > MaxNameLength { errors := errors + [NameTooLong]; }
    if b != [] && |b| > MaxBioLength { errors := errors + [BioTooLong]; }
    if p != [] && |p| > MaxPronounsLength { errors := errors + [PronounsTooLong]; }
    yearValue := None;
    if y != [] {
      var parsed := ParseNumber(y);
      if parsed.Value? {
        yearValue := Some(parsed.n);
      } else {
        errors := errors + [YearNotNumber];
      }
    }
  }

  // ---------------------------------------------------------------------
  // Ownership (edit_event, delete_event, delete_comment and their API twins)
  // ---------------------------------------------------------------------

  datatype Permission = NotFound | NotOwner | Permitted

  /** `owner` is the row's addedBy, or None when the row does not exist. */
  function CheckOwner(owner: Option<nat>, uid: nat): (p: Permission)
    ensures p == Permitted <==> owner == Some(uid)
    ensures p == NotFound <==> owner.None?
  {
    match owner
    case None => NotFound
    case Some(o) => if o != uid then NotOwner else Permitted
  }
}
