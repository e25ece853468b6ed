/**
  Field and form validation (js/main.js:130-193): `validateField`, run on
  blur and on submit, and the all-fields decision of `handleFormSubmit`.
  The inline error element, the border colour and the simulated request
  that follows a successful decision are not part of this model.
 */
module Validation {
  import opened Optional
  import opened Text
  import opened Email
  import opened Phone

  /** A `.form-control` input: its `name`, its current `value` and whether
      it carries the `required` attribute. */
  datatype Field = Field(name: string, value: string, required: bool)

  datatype Verdict = Valid | Invalid(message: string)

  const RequiredMessage := "This field is required"
  const EmailMessage := "Please enter a valid email address"
  const PhoneMessage := "Please enter a valid phone number"

  /** The rules `validateField` tries, in the order it tries them. */
  datatype Rule = Required | EmailFormat | PhoneFormat

  const RuleChain: seq<Rule> := [Required, EmailFormat, PhoneFormat]

  function Message(r: Rule): string {
    match r
    case Required => RequiredMessage
    case EmailFormat => EmailMessage
    case PhoneFormat => PhoneMessage
  }

  /** Rule `r` rejects field `f`. Each rule looks at the trimmed value; the
      format rules apply only to a field of their name with something in it. */
  predicate Fails(r: Rule, f: Field) {
    var value := Trim(f.value);
    match r
    case Required => f.required && value == []
    case EmailFormat => f.name == "email" && value != [] && !IsValidEmail(value)
    case PhoneFormat => f.name == "phone" && value != [] && !IsValidPhone(value)
  }

  /** The first rule of `rules` that rejects `f`, if any. */
  function FirstFailure(rules: seq<Rule>, f: Field): (r: Option<Rule>)
    ensures r.None? <==> forall k | 0 <= k < |rules| :: !Fails(rules[k], f)
    ensures r.Some? ==> exists k | 0 <= k < |rules| ::
      && rules[k] == r.value
      && Fails(rules[k], f)
      && forall m | 0 <= m < k :: !Fails(rules[m], f)
  {
    if rules == [] then None
    else if Fails(rules[0], f) then Some(rules[0])
    else
      var r := FirstFailure(rules[1..], f);
      assert forall k | 1 <= k < |rules| :: rules[k] == rules[1..][k - 1];
      if r.Some? then
        var k :| 0 <= k < |rules[1..]| && rules[1..][k] == r.value && Fails(rules[1..][k], f)
          && forall m | 0 <= m < k :: !Fails(rules[1..][m], f);
        assert rules[k + 1] == r.value;
        r
      else r
  }

  /** `validateField`: the required check, then the e-mail check, then the
      phone check, on the trimmed value; the first that fails decides the
      message. */
  function ValidateField(f: Field): (v: Verdict)
    ensures f.required && AllSpace(f.value) ==> v == Invalid(RequiredMessage)
    ensures !f.required && AllSpace(f.value) ==> v == Valid
    ensures v.Valid? <==> forall k | 0 <= k < |RuleChain| :: !Fails(RuleChain[k], f)
    ensures v == Invalid(EmailMessage) <==>
      && !(f.required && AllSpace(f.value))
      && f.name == "email" && !AllSpace(f.value)
      && !WellFormedEmail(Trim(f.value))
    ensures f.name != "email" && f.name != "phone" ==>
      (v.Valid? <==> !(f.required && AllSpace(f.value)))
  {
    var value := Trim(f.value);
    EmailCharacterization(value);
    assert RuleChain[0] == Required && RuleChain[1] == EmailFormat && RuleChain[2] == PhoneFormat;
    assert |EmailMessage| != |RequiredMessage| && |EmailMessage| != |PhoneMessage|;
    if f.required && value == [] then Invalid(RequiredMessage)
    else if f.name == "email" && value != [] && !IsValidEmail(value) then Invalid(EmailMessage)
    else if f.name == "phone" && value != [] && !IsValidPhone(value) then Invalid(PhoneMessage)
    else Valid
  }

  /** The verdict is the message of the first failing rule of the chain. */
  lemma FirstFailingRuleWins(f: Field)
    ensures ValidateField(f) ==
      match FirstFailure(RuleChain, f)
      case None => Valid
      case Some(r) => Invalid(Message(r))
  {
  }

  /** A phone field that validates with something in it holds an
      admissible number: 3 to 24 characters, 3 to 17 digits, at most two
      separators, and a '+' only in front. */
  lemma ValidPhoneField(f: Field)
    ensures f.name == "phone" && !AllSpace(f.value) && ValidateField(f).Valid? ==>
      && 3 <= |Trim(f.value)| <= 24
      && 3 <= CountWhere(Trim(f.value), IsDigit) <= 17
      && CountWhere(Trim(f.value), IsSeparator) <= 2
      && forall i | 0 < i < |Trim(f.value)| :: Trim(f.value)[i] != '+'
  {
    var value := Trim(f.value);
    if f.name == "phone" && !AllSpace(f.value) && ValidateField(f).Valid? {
      assert !Fails(PhoneFormat, f) by { assert RuleChain[2] == PhoneFormat; }
      PhoneLength(value);
      PhoneDigitCount(value);
      PhoneSeparatorCount(value);
      PlusOnlyFirst(value);
    }
  }

  /** `handleFormSubmit`'s decision: every field is validated, none is
      skipped after a failure, and the form proceeds exactly when all are
      valid. */
  method HandleFormSubmit(fields: seq<Field>) returns (verdicts: seq<Verdict>, proceed: bool)
    ensures |verdicts| == |fields|
    ensures forall i | 0 <= i < |fields| :: verdicts[i] == ValidateField(fields[i])
    ensures proceed <==> forall i | 0 <= i < |fields| :: verdicts[i].Valid?
  {
    verdicts := [];
    proceed := true;
    for i := 0 to |fields|
      invariant |verdicts| == i
      invariant forall j | 0 <= j < i :: verdicts[j] == ValidateField(fields[j])
      invariant proceed <==> forall j | 0 <= j < i :: verdicts[j].Valid?
    {
      var v := ValidateField(fields[i]);
      verdicts := verdicts + [v];
      if !v.Valid? {
        proceed := false;
      }
    }
  }
}
