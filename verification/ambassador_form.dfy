/**
 * The Ambassador enrollment form: its state (the form data, the error
 * messages keyed by field, the loading and success flags), the two input
 * handlers, the validator and the submit handler that gates the service.
 */
module AmbassadorForm {
  import opened Wrappers
  import opened Text
  import opened Enrollments

  /** `REQUIRED_COMMITMENTS`: the four labels offered as toggles, all of which must be accepted. */
  const RequiredCommitments: seq<string> :=
    ["Spread awareness", "Engage with community", "Support values", "Be active"]

  const FirstNameRequired: string := "First name is required"
  const LastNameRequired: string := "Last name is required"
  const EmailRequired: string := "Email is required"
  const CommitmentsIncomplete: string := "Please accept all commitments to continue"
  const SubmitFailed: string := "Failed to submit enrollment"

  datatype FormData = FormData(
    firstName: string,
    lastName: string,
    email: string,
    phone: string,
    church: string,
    commitments: seq<string>)

  /** The text inputs of the form, by their `name` attribute. */
  datatype Field = FirstName | LastName | Email | Phone | Church

  /**
   * The keys of the errors map: an input's `name` (`firstName`, `lastName`,
   * `email`, `phone`, `church`), `commitments` or `submit`.
   */
  datatype ErrorKey = FieldKey(field: Field) | CommitmentsKey | SubmitKey

  function FieldValue(d: FormData, f: Field): string
  {
    match f
    case FirstName => d.firstName
    case LastName => d.lastName
    case Email => d.email
    case Phone => d.phone
    case Church => d.church
  }

  /** `{ ...prev, [name]: value }` */
  function WithFieldValue(d: FormData, f: Field, value: string): (r: FormData)
    ensures FieldValue(r, f) == value
    ensures forall g :: g != f ==> FieldValue(r, g) == FieldValue(d, g)
    ensures r.commitments == d.commitments
  {
    match f
    case FirstName => d.(firstName := value)
    case LastName => d.(lastName := value)
    case Email => d.(email := value)
    case Phone => d.(phone := value)
    case Church => d.(church := value)
  }

  /**
   * `cs.filter(x => x !== c)`: every occurrence of `c` removed. The count of
   * each other label is kept (`WithoutCounts`), and so is their order:
   * filtering distributes over concatenation (`WithoutConcat`).
   */
  function Without(cs: seq<string>, c: string): (r: seq<string>)
    ensures |r| <= |cs|
    ensures forall x :: x in r <==> x in cs && x != c
  {
    if cs == [] then []
    else (if cs[0] == c then [] else [cs[0]]) + Without(cs[1..], c)
  }

  lemma {:induction false} WithoutCounts(cs: seq<string>, c: string)
    ensures multiset(Without(cs, c)) == multiset(cs)[c := 0]
  {
    if cs != [] {
      WithoutCounts(cs[1..], c);
      assert cs == [cs[0]] + cs[1..];
    }
  }

  lemma {:induction false} WithoutConcat(a: seq<string>, b: seq<string>, c: string)
    ensures Without(a + b, c) == Without(a, c) + Without(b, c)
  {
    if a == [] {
      assert a + b == b;
    } else {
      assert (a + b)[1..] == a[1..] + b;
      WithoutConcat(a[1..], b, c);
    }
  }

  lemma {:induction false} WithoutAbsent(cs: seq<string>, c: string)
    requires c !in cs
    ensures Without(cs, c) == cs
  {
    if cs != [] {
      WithoutAbsent(cs[1..], c);
    }
  }

  lemma {:induction false} WithoutKeepsNoDuplicates(cs: seq<string>, c: string)
    requires NoDuplicates(cs)
    ensures NoDuplicates(Without(cs, c))
  {
    if cs != [] {
      WithoutKeepsNoDuplicates(cs[1..], c);
      assert cs[0] !in cs[1..];
    }
  }

  /** The commitments list after toggling `c`: removed when present, appended when absent. */
  function Toggled(cs: seq<string>, c: string): (r: seq<string>)
    ensures c in r <==> c !in cs
    ensures forall x :: x != c ==> (x in r <==> x in cs)
    ensures c !in cs ==> |r| == |cs| + 1 && r[..|cs|] == cs
    ensures NoDuplicates(cs) ==> NoDuplicates(r)
  {
    if c in cs then
      if NoDuplicates(cs) then WithoutKeepsNoDuplicates(cs, c); Without(cs, c)
      else Without(cs, c)
    else
      cs + [c]
  }

  /** Toggling the same label twice gives back the same labels; from an absent label, the same list. */
  lemma ToggleTwice(cs: seq<string>, c: string)
    ensures forall x :: x in Toggled(Toggled(cs, c), c) <==> x in cs
    ensures c !in cs ==> Toggled(Toggled(cs, c), c) == cs
  {
    if c !in cs {
      var once := cs + [c];
      WithoutAbsent(cs, c);
      assert Without(once, c) == Without(cs, c) by {
        WithoutAppend(cs, c);
      }
    }
  }

  lemma {:induction false} WithoutAppend(cs: seq<string>, c: string)
    ensures Without(cs + [c], c) == Without(cs, c)
  {
    if cs == [] {
      assert Without([c], c) == [] + Without([], c);
    } else {
      assert (cs + [c])[1..] == cs[1..] + [c];
      WithoutAppend(cs[1..], c);
    }
  }

  /** `required.filter(x => !cs.includes(x))` */
  function MissingFrom(required: seq<string>, cs: seq<string>): (missing: seq<string>)
    ensures |missing| <= |required|
    ensures forall x :: x in missing <==> x in required && x !in cs
  {
    if required == [] then []
    else (if required[0] in cs then [] else [required[0]]) + MissingFrom(required[1..], cs)
  }

  /** Every required label is in the list (in any order, among any extra entries). */
  predicate HasAllRequired(cs: seq<string>)
  {
    forall x :: x in RequiredCommitments ==> x in cs
  }

  /** The state in which the form may be sent: names and email present, every commitment accepted. */
  predicate Submittable(d: FormData)
  {
    && Trim(d.firstName) != ""
    && Trim(d.lastName) != ""
    && Trim(d.email) != ""
    && HasAllRequired(d.commitments)
  }

  /** The messages for the checks that failed, each under its own key. */
  function ErrorsFor(firstNameBlank: bool, lastNameBlank: bool, emailBlank: bool, commitmentsMissing: bool): (m: map<ErrorKey, string>)
    ensures m.Keys <= {FieldKey(FirstName), FieldKey(LastName), FieldKey(Email), CommitmentsKey}
    ensures (FieldKey(FirstName) in m <==> firstNameBlank) && (FieldKey(FirstName) in m ==> m[FieldKey(FirstName)] == FirstNameRequired)
    ensures (FieldKey(LastName) in m <==> lastNameBlank) && (FieldKey(LastName) in m ==> m[FieldKey(LastName)] == LastNameRequired)
    ensures (FieldKey(Email) in m <==> emailBlank) && (FieldKey(Email) in m ==> m[FieldKey(Email)] == EmailRequired)
    ensures (CommitmentsKey in m <==> commitmentsMissing) && (CommitmentsKey in m ==> m[CommitmentsKey] == CommitmentsIncomplete)
  {
    var m0: map<ErrorKey, string> := map[];
    var m1 := if firstNameBlank then m0[FieldKey(FirstName) := FirstNameRequired] else m0;
    var m2 := if lastNameBlank then m1[FieldKey(LastName) := LastNameRequired] else m1;
    var m3 := if emailBlank then m2[FieldKey(Email) := EmailRequired] else m2;
    if commitmentsMissing then m3[CommitmentsKey := CommitmentsIncomplete] else m3
  }

  /**
   * The error messages `validateForm` leaves behind, one per failed check:
   * only the three text checks and the commitments check can report, and the
   * map is empty exactly on a submittable form.
   */
  function ValidationErrors(d: FormData): (m: map<ErrorKey, string>)
    ensures m.Keys <= {FieldKey(FirstName), FieldKey(LastName), FieldKey(Email), CommitmentsKey}
    ensures m == map[] <==> Submittable(d)
  {
    ErrorsFor(Trim(d.firstName) == "", Trim(d.lastName) == "", Trim(d.email) == "", !HasAllRequired(d.commitments))
  }

  /**
   * Each check contributes its own message, whatever the others found: a
   * name or email made only of white space (or empty) is reported under its
   * field, and any missing required label under `commitments`.
   */
  lemma RequiredFieldErrors(d: FormData)
    ensures var m := ValidationErrors(d);
      && m.Keys <= {FieldKey(FirstName), FieldKey(LastName), FieldKey(Email), CommitmentsKey}
      && (FieldKey(FirstName) in m <==> AllWhitespace(d.firstName))
      && (FieldKey(LastName) in m <==> AllWhitespace(d.lastName))
      && (FieldKey(Email) in m <==> AllWhitespace(d.email))
      && (CommitmentsKey in m <==> exists x :: x in RequiredCommitments && x !in d.commitments)
      && (FieldKey(FirstName) in m ==> m[FieldKey(FirstName)] == FirstNameRequired)
      && (FieldKey(LastName) in m ==> m[FieldKey(LastName)] == LastNameRequired)
      && (FieldKey(Email) in m ==> m[FieldKey(Email)] == EmailRequired)
      && (CommitmentsKey in m ==> m[CommitmentsKey] == CommitmentsIncomplete)
  {
    TrimSpec(d.firstName);
    TrimSpec(d.lastName);
    TrimSpec(d.email);
  }

  /** `phone` and `church` never produce an error. */
  lemma ValidationIgnoresPhoneAndChurch(d: FormData, phone: string, church: string)
    ensures ValidationErrors(d.(phone := phone, church := church)) == ValidationErrors(d)
  {
  }

  /** Only which required labels are present matters: not their order, repetitions or extra entries. */
  lemma ValidationSeesOnlyRequiredLabels(d: FormData, cs: seq<string>)
    requires forall x :: x in RequiredCommitments ==> (x in cs <==> x in d.commitments)
    ensures ValidationErrors(d.(commitments := cs)) == ValidationErrors(d)
  {
  }

  /**
   * For a list the form can build (required labels, each at most once), the
   * service's count test `length === 4` agrees with the validator's check
   * that all four labels are present.
   */
  lemma FormLabelsAccepted(cs: seq<string>)
    requires NoDuplicates(cs)
    requires forall x :: x in cs ==> x in RequiredCommitments
    ensures CommitmentsAccepted(cs) <==> HasAllRequired(cs)
  {
    var s := set x | x in cs;
    var req := set x | x in RequiredCommitments;
    assert req == {"Spread awareness", "Engage with community", "Support values", "Be active"};
    assert |req| == 4;
    assert s <= req;
    assert CommitmentsAccepted(cs) <==> |s| == 4;
    if |s| == 4 {
      assert |req - s| == 0;
      assert req <= s;
    }
  }

  /** The count test alone accepts four labels none of which is required. */
  lemma CountAcceptsArbitraryLabels()
    ensures CommitmentsAccepted(["a", "b", "c", "d"]) && !HasAllRequired(["a", "b", "c", "d"])
  {
    assert RequiredCommitments[0] !in ["a", "b", "c", "d"];
  }

  /**
   * The request `handleSubmit` builds from the form data. Phone and church
   * are always passed as strings, possibly empty, never as absent values.
   */
  function RequestOf(d: FormData): (req: AmbassadorRequest)
    ensures req.firstName == d.firstName && req.lastName == d.lastName && req.email == d.email
    ensures req.phone == Some(d.phone) && req.church == Some(d.church)
    ensures req.commitments == d.commitments
  {
    AmbassadorRequest(d.firstName, d.lastName, d.email, Some(d.phone), Some(d.church), d.commitments)
  }

  /** `err instanceof Error ? err.message : 'Failed to submit enrollment'` */
  function SubmitMessage(t: Thrown): (msg: string)
    ensures t.Error? ==> msg == t.message
    ensures t.NotAnError? ==> msg == SubmitFailed
  {
    match t
    case Error(message) => message
    case NotAnError(_) => SubmitFailed
  }

  class Form {
    var formData: FormData
    var errors: map<ErrorKey, string>
    var loading: bool
    var showSuccess: bool

    /** The commitments hold only required labels, each at most once. */
    ghost predicate Valid()
      reads this
    {
      && NoDuplicates(formData.commitments)
      && forall x :: x in formData.commitments ==> x in RequiredCommitments
    }

    constructor ()
      ensures Valid()
      ensures formData == FormData("", "", "", "", "", [])
      ensures errors == map[] && !loading && !showSuccess
    {
      formData := FormData("", "", "", "", "", []);
      errors := map[];
      loading := false;
      showSuccess := false;
    }

    method SetError(key: ErrorKey, message: string)
      modifies this`errors
      ensures errors == old(errors)[key := message]
    {
      errors := errors[key := message];
    }

    method ClearError(key: ErrorKey)
      modifies this`errors
      ensures errors == old(errors) - {key}
    {
      errors := errors - {key};
    }

    method ClearAllErrors()
      modifies this`errors
      ensures errors == map[]
    {
      errors := map[];
    }

    /** `handleInputChange`: set one text field and clear that field's error. */
    method HandleInputChange(field: Field, value: string)
      modifies this`formData, this`errors
      ensures FieldValue(formData, field) == value
      ensures forall g :: g != field ==> FieldValue(formData, g) == FieldValue(old(formData), g)
      ensures formData.commitments == old(formData.commitments)
      ensures errors == old(errors) - {FieldKey(field)}
      ensures old(Valid()) ==> Valid()
    {
      formData := WithFieldValue(formData, field, value);
      ClearError(FieldKey(field));
    }

    /** `handleCommitmentToggle`: add or remove one label and clear the commitments error. */
    method HandleCommitmentToggle(commitment: string)
      modifies this`formData, this`errors
      ensures formData == old(formData).(commitments := Toggled(old(formData.commitments), commitment))
      ensures errors == old(errors) - {CommitmentsKey}
      ensures old(Valid()) && commitment in RequiredCommitments ==> Valid()
    {
      formData := formData.(commitments := Toggled(formData.commitments, commitment));
      ClearError(CommitmentsKey);
    }

    /** `validateForm`: clear all errors, run the four checks, record one message per failure. */
    method ValidateForm() returns (isValid: bool)
      modifies this`errors
      ensures errors == ValidationErrors(formData)
      ensures isValid <==> Submittable(formData)
      ensures isValid <==> errors == map[]
    {
      isValid := true;
      ClearAllErrors();
      if Trim(formData.firstName) == "" {
        SetError(FieldKey(FirstName), FirstNameRequired);
        isValid := false;
      }
      if Trim(formData.lastName) == "" {
        SetError(FieldKey(LastName), LastNameRequired);
        isValid := false;
      }
      if Trim(formData.email) == "" {
        SetError(FieldKey(Email), EmailRequired);
        isValid := false;
      }
      var missingCommitments := MissingFrom(RequiredCommitments, formData.commitments);
      assert |missingCommitments| > 0 <==> !HasAllRequired(formData.commitments) by {
        if |missingCommitments| > 0 {
          assert missingCommitments[0] in missingCommitments;
        }
      }
      if |missingCommitments| > 0 {
        SetError(CommitmentsKey, CommitmentsIncomplete);
        isValid := false;
      }
      assert errors.Keys == ValidationErrors(formData).Keys;
    }

    /**
     * `handleSubmit`: validate; when that passes, raise `loading`, call the
     * service, then show success or put the thrown message in the `submit`
     * slot, and lower `loading`.
     */
    method HandleSubmit(service: EnrollmentService, lookupFault: Option<Thrown>,
                        insertFault: Option<Thrown>, createdAt: string)
      requires service.Valid()
      modifies this, service
      ensures service.Valid()
      ensures formData == old(formData)
      ensures !Submittable(formData) ==>
        && errors == ValidationErrors(formData)
        && loading == old(loading) && showSuccess == old(showSuccess)
        && service.rows == old(service.rows) && service.writes == old(service.writes)
      ensures Submittable(formData) ==> !loading
      ensures Submittable(formData) && ExistingId(old(service.rows), formData.email, lookupFault).Some? ==>
        && errors == map[SubmitKey := DuplicateEmailMessage]
        && showSuccess == old(showSuccess)
        && service.rows == old(service.rows) && service.writes == old(service.writes)
      ensures Submittable(formData) && ExistingId(old(service.rows), formData.email, lookupFault).None? && insertFault.Some? ==>
        && errors == map[SubmitKey := SubmitMessage(insertFault.value)]
        && showSuccess == old(showSuccess)
        && service.rows == old(service.rows) && service.writes == old(service.writes)
      ensures Submittable(formData) && ExistingId(old(service.rows), formData.email, lookupFault).None? && insertFault.None? ==>
        && errors == map[] && showSuccess
        && service.rows == old(service.rows) + [NewRow(RequestOf(formData), |old(service.rows)|, createdAt, service.defaults)]
        && service.writes == old(service.writes) + 1
      ensures old(Valid()) && Submittable(formData) && ExistingId(old(service.rows), formData.email, lookupFault).None? && insertFault.None? ==>
        service.rows[|service.rows| - 1].commitmentsAccepted
    {
      var valid := ValidateForm();
      if !valid {
        return;
      }
      loading := true;
      var request := RequestOf(formData);
      var r := service.CreateAmbassadorEnrollment(request, lookupFault, insertFault, createdAt);
      if r.Success? {
        showSuccess := true;
      } else {
        SetError(SubmitKey, SubmitMessage(r.error));
      }
      loading := false;
      if old(Valid()) && r.Success? {
        FormLabelsAccepted(formData.commitments);
      }
    }
  }
}
