/**
  The RSVP form: its field values, the checks run on submit, the payload
  posted when they pass, and the reset done when the attendance answer changes.
 */
module Rsvp {
  import opened JsString
  import opened Optional

  /** The state of a numeric input, `number | ""`: blank, or the number typed. */
  datatype NumberInput = Blank | Num(value: real)

  datatype Form = Form(
    firstName: string,
    lastName: string,
    attendance: string,   // "", "Yes" or "No" from the select; any string is accepted
    guests: NumberInput,
    highChair: string,    // "", "Yes" or "No" from the radio buttons
    highChairCount: NumberInput,
    message: string)

  /** The keys of the error record, in the order the checks insert them. */
  datatype Field = LastName | FirstName | Attendance | Guests | HighChair | HighChairCount

  const InsertionOrder: seq<Field> := [LastName, FirstName, Attendance, Guests, HighChair, HighChairCount]

  function Message(f: Field): (m: string)
    ensures m != ""
  {
    match f
    case LastName => "Please enter your last name."
    case FirstName => "Please enter your first name."
    case Attendance => "Please select whether you'll attend."
    case Guests => "Please provide the number of guests (minimum 1) when attending."
    case HighChair => "Please indicate whether you need a high chair."
    case HighChairCount => "Please provide how many high chairs you need."
  }

  /** `v === "" || Number(v) < 1`: the count is missing or below one; a count that passes is a number of at least one. */
  predicate MissingCount(v: NumberInput): (missing: bool)
    ensures !missing <==> v.Num? && v.value >= 1.0
  {
    v.Blank? || v.value < 1.0
  }

  /**
    The check for key `f` fails on `form`. The guest and high-chair checks only
    fire for a guest who answered "Yes", and the count check never fires
    together with the missing-answer check for the high chair.
   */
  predicate Fails(form: Form, f: Field): (failed: bool)
    ensures failed && f in {Guests, HighChair, HighChairCount} ==> form.attendance == "Yes"
    ensures failed && f == HighChairCount ==> form.highChair != ""
  {
    match f
    case LastName => Trim(form.lastName) == ""
    case FirstName => Trim(form.firstName) == ""
    case Attendance => form.attendance == ""
    case Guests => form.attendance == "Yes" && MissingCount(form.guests)
    case HighChair => form.attendance == "Yes" && form.highChair == ""
    case HighChairCount => form.attendance == "Yes" && form.highChair == "Yes" && MissingCount(form.highChairCount)
  }

  /** The error record built by the submit handler: one entry, holding its message, per failed check. */
  function Validate(form: Form): (errors: map<Field, string>)
    ensures forall f :: f in errors <==> Fails(form, f)
    ensures forall f :: f in errors ==> errors[f] == Message(f)
  {
    map f | f in InsertionOrder && Fails(form, f) :: Message(f)
  }

  /** Each check fires exactly on its own condition: names that are blank after trimming, no attendance answer. */
  lemma ValidateRequiredFields(form: Form)
    ensures LastName in Validate(form) <==> AllWhitespace(form.lastName)
    ensures FirstName in Validate(form) <==> AllWhitespace(form.firstName)
    ensures Attendance in Validate(form) <==> form.attendance == ""
  {
    TrimEmptyIffBlank(form.lastName);
    TrimEmptyIffBlank(form.firstName);
  }

  /** The guest and high-chair checks only apply to guests who answered "Yes". */
  lemma ValidateAttendingFields(form: Form)
    ensures Guests in Validate(form) <==> form.attendance == "Yes" && MissingCount(form.guests)
    ensures HighChair in Validate(form) <==> form.attendance == "Yes" && form.highChair == ""
    ensures HighChairCount in Validate(form)
        <==> form.attendance == "Yes" && form.highChair == "Yes" && MissingCount(form.highChairCount)
    ensures form.attendance != "Yes" ==> Validate(form).Keys <= {LastName, FirstName, Attendance}
  {
  }

  /** The fields posted to the RSVP endpoint. A blank count is sent as null. */
  datatype Payload = Payload(
    firstName: string,
    lastName: string,
    name: string,
    attendance: string,
    guests: Option<real>,
    highChair: string,
    highChairCount: Option<real>,
    message: string)

  /** What a submit does: show the errors and alert the first message, or post the payload. */
  datatype SubmitOutcome = Rejected(errors: map<Field, string>, alert: string) | Posted(payload: Payload)

  /** The first key of a non-empty error record, in insertion order. */
  function FirstError(errors: map<Field, string>, order: seq<Field>): (f: Field)
    requires exists i :: 0 <= i < |order| && order[i] in errors
    ensures f in errors && f in order
    ensures forall i :: 0 <= i < |order| && order[i] != f && order[i] in errors ==>
      exists j :: 0 <= j < i && order[j] == f
  {
    if order[0] in errors then order[0]
    else
      var f := FirstError(errors, order[1..]);
      assert forall i :: 1 <= i < |order| ==> order[i] == order[1..][i - 1];
      f
  }

  /** `v === "" ? null : v`: a blank input is posted as null, a number as itself. */
  function NumberOrNull(v: NumberInput): (r: Option<real>)
    ensures r.None? <==> v.Blank?
    ensures v.Num? ==> r == Some(v.value)
  {
    match v
    case Blank => None
    case Num(n) => Some(n)
  }

  /** The submit handler, up to the network call. */
  function Submit(form: Form): (o: SubmitOutcome)
    ensures o.Posted? <==> Validate(form) == map[]
    ensures o.Rejected? ==> o.errors == Validate(form) && o.alert in o.errors.Values
    ensures o.Posted? ==> o.payload.name == Trim(form.lastName) + ", " + Trim(form.firstName)
    ensures o.Posted? ==> o.payload.firstName != "" && o.payload.lastName != "" && o.payload.attendance != ""
    ensures o.Posted? ==> o.payload == Payload(Trim(form.firstName), Trim(form.lastName),
      Trim(form.lastName) + ", " + Trim(form.firstName), form.attendance, NumberOrNull(form.guests),
      form.highChair, NumberOrNull(form.highChairCount), form.message)
  {
    var errors := Validate(form);
    if errors != map[] then
      var f :| f in errors;
      assert f in InsertionOrder;
      var first := FirstError(errors, InsertionOrder);
      Rejected(errors, errors[first])
    else
      assert FirstName !in errors && LastName !in errors && Attendance !in errors;
      var first, last := Trim(form.firstName), Trim(form.lastName);
      Posted(Payload(first, last, last + ", " + first, form.attendance, NumberOrNull(form.guests),
                     form.highChair, NumberOrNull(form.highChairCount), form.message))
  }

  /** The alert shows the message of the first failed check, in the order the checks run. */
  lemma AlertIsFirstFailedCheck(form: Form, i: nat)
    requires i < |InsertionOrder| && InsertionOrder[i] in Validate(form)
    requires forall j :: 0 <= j < i ==> InsertionOrder[j] !in Validate(form)
    ensures Submit(form) == Rejected(Validate(form), Message(InsertionOrder[i]))
  {
  }

  /** The posted name reads back as the trimmed last and first names around ", ". */
  lemma PostedNameSplits(form: Form)
    requires Submit(form).Posted?
    ensures var p := Submit(form).payload;
      p.name[..|p.lastName|] == p.lastName && p.name[|p.lastName|..|p.lastName| + 2] == ", "
      && p.name[|p.lastName| + 2..] == p.firstName
  {
  }

  /** A form that answers "No" with two non-blank names is posted, whatever the other fields hold. */
  lemma DeclineWithNamesIsPosted(form: Form)
    requires form.attendance == "No"
    requires !AllWhitespace(form.firstName) && !AllWhitespace(form.lastName)
    ensures Submit(form).Posted?
  {
    ValidateRequiredFields(form);
    ValidateAttendingFields(form);
    assert Validate(form).Keys == {};
  }

  /** The form together with the error record the page shows; a key set to `undefined` is an absent key. */
  datatype FormState = FormState(form: Form, errors: map<Field, string>)

  /** `errors.f` is truthy: the field is marked as failing. */
  predicate Shown(errors: map<Field, string>, f: Field) {
    f in errors && errors[f] != ""
  }

  /** The attendance select's change handler. */
  function ChangeAttendance(st: FormState, val: string): (st': FormState)
    ensures st'.form.attendance == val && !Shown(st'.errors, Attendance)
    ensures val != "Yes" ==> st'.form.guests == Blank && st'.form.highChair == "" && st'.form.highChairCount == Blank
    ensures val == "Yes" ==> st'.form == st.form.(attendance := val)
    ensures st'.form.firstName == st.form.firstName && st'.form.lastName == st.form.lastName
    ensures st'.form.message == st.form.message
    ensures forall f :: f != Attendance ==> (f in st'.errors <==> f in st.errors) && (f in st.errors ==> st'.errors[f] == st.errors[f])
  {
    var f := st.form.(attendance := val);
    var f' := if val != "Yes" then f.(guests := Blank, highChair := "", highChairCount := Blank) else f;
    var errors := if Shown(st.errors, Attendance) then st.errors - {Attendance} else st.errors;
    FormState(f', errors)
  }

  /** After answering anything but "Yes", the dependent fields can no longer fail a check. */
  lemma ChangeAttendanceClearsDependentErrors(st: FormState, val: string)
    requires val != "Yes"
    ensures var errors := Validate(ChangeAttendance(st, val).form);
      Guests !in errors && HighChair !in errors && HighChairCount !in errors
      && (Attendance in errors <==> val == "")
  {
  }

  /** After answering "Yes", the guest count and high-chair answer typed earlier are checked as they stand. */
  lemma ChangeToYesKeepsAnswers(st: FormState)
    ensures var form := ChangeAttendance(st, "Yes").form;
      form.guests == st.form.guests && form.highChair == st.form.highChair
      && form.highChairCount == st.form.highChairCount
      && (Guests in Validate(form) <==> MissingCount(st.form.guests))
  {
  }
}
