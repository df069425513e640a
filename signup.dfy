/**
 * The registration form's submit handler with the page reads replaced by
 * plain inputs: the seven fields, their rule lists in the handler's order, the
 * outcome array and the acceptance decision.
 */
module Signup {
  import opened Decimal
  import opened Rules
  import opened Runner
  import opened Form
  import Email
  import Name

  /** A control that may be absent (an unticked radio group or checkbox). */
  datatype Option<T> = None | Some(value: T)

  /** What the handler reads from the page. */
  datatype Submission = Submission(
    email: string,
    name: string,
    gender: string,
    country: Option<string>,
    password: string,
    confirmedPassword: string,
    agree: Option<string>)

  /** An absent control contributes the empty string. */
  function OrEmpty(control: Option<string>): (value: string)
    ensures control.None? ==> value == ""
    ensures control.Some? ==> value == control.value
  {
    match control
    case None => ""
    case Some(v) => v
  }

  /** The seven field requests of the handler, in its order. */
  function EmailField(sub: Submission): Field {
    Field(sub.email, [IsRequired, IsEmail])
  }

  function NameField(sub: Submission): Field {
    Field(sub.name, [IsRequired, IsName, Max(50)])
  }

  function GenderField(sub: Submission): Field {
    Field(sub.gender, [IsRequired])
  }

  function CountryField(sub: Submission): Field {
    Field(OrEmpty(sub.country), [IsRequired])
  }

  function PasswordField(sub: Submission): Field {
    Field(sub.password, [IsRequired, Min(8), Max(30)])
  }

  /** The reference value of IsSame is the password as submitted. */
  function ConfirmedPasswordField(sub: Submission): Field {
    Field(sub.confirmedPassword, [IsRequired, Min(8), Max(30), IsSame(sub.password, "Password", "ConfirmedPassword")])
  }

  function AgreeField(sub: Submission): Field {
    Field(OrEmpty(sub.agree), [IsRequired])
  }

  function SignupFields(sub: Submission): (fields: seq<Field>)
    ensures |fields| == 7
  {
    [ EmailField(sub), NameField(sub), GenderField(sub), CountryField(sub),
      PasswordField(sub), ConfirmedPasswordField(sub), AgreeField(sub) ]
  }

  /** The handler's `isValidForm`. */
  predicate Accepted(sub: Submission) {
    FormIsValid(SignupFields(sub))
  }

  /** The outcome of a field checked by [IsRequired, Min(lo), Max(hi)]. */
  lemma LengthWindowOutcome(v: string, lo: nat, hi: nat)
    ensures FirstFailure(v, [IsRequired, Min(lo), Max(hi)]) ==
      if v == "" then RequiredMessage
      else if |v| < lo then MinPrefix + NatToString(lo)
      else if |v| > hi then MaxPrefix + NatToString(hi)
      else ""
  {
    FirstFailureOfThree(v, IsRequired, Min(lo), Max(hi));
  }

  /** The outcome of a field checked by [IsRequired, Min(lo), Max(hi), IsSame(ref, label1, label2)]. */
  lemma ConfirmationOutcome(v: string, lo: nat, hi: nat, ref: string, label1: string, label2: string)
    ensures FirstFailure(v, [IsRequired, Min(lo), Max(hi), IsSame(ref, label1, label2)]) ==
      if v == "" then RequiredMessage
      else if |v| < lo then MinPrefix + NatToString(lo)
      else if |v| > hi then MaxPrefix + NatToString(hi)
      else if v != ref then label1 + SameInfix + label2
      else ""
  {
    FirstFailureOfFour(v, IsRequired, Min(lo), Max(hi), IsSame(ref, label1, label2));
  }

  /** The outcome of the name field, [IsRequired, IsName, Max(hi)]. */
  lemma NameOutcome(v: string, hi: nat)
    ensures FirstFailure(v, [IsRequired, IsName, Max(hi)]) ==
      if v == "" then RequiredMessage
      else if !Name.WellFormedName(v) then NameMessage
      else if |v| > hi then MaxPrefix + NatToString(hi)
      else ""
  {
    FirstFailureOfThree(v, IsRequired, IsName, Max(hi));
  }

  /** The outcome of the e-mail field, [IsRequired, IsEmail]: an empty address
      fails both rules and the required-rule message is the one reported. */
  lemma EmailOutcome(v: string)
    ensures FirstFailure(v, [IsRequired, IsEmail]) ==
      if v == "" then RequiredMessage
      else if !Email.InEmailLanguage(v) then EmailMessage
      else ""
  {
    FirstFailureOfTwo(v, IsRequired, IsEmail);
  }

  /** The outcome of a field checked by [IsRequired] alone. */
  lemma RequiredOutcome(v: string)
    ensures FirstFailure(v, [IsRequired]) == if v == "" then RequiredMessage else ""
  {
    FirstFailureOfOne(v, IsRequired);
  }

  /** The handler accepts exactly when each of its seven outcomes is "". */
  lemma AcceptedFieldByField(sub: Submission)
    ensures Accepted(sub) <==>
      && Outcome(EmailField(sub)) == ""
      && Outcome(NameField(sub)) == ""
      && Outcome(GenderField(sub)) == ""
      && Outcome(CountryField(sub)) == ""
      && Outcome(PasswordField(sub)) == ""
      && Outcome(ConfirmedPasswordField(sub)) == ""
      && Outcome(AgreeField(sub)) == ""
  {
    var fields := SignupFields(sub);
    var outcomes := Outcomes(fields);
    assert fields[0] == EmailField(sub) && fields[1] == NameField(sub) && fields[2] == GenderField(sub);
    assert fields[3] == CountryField(sub) && fields[4] == PasswordField(sub);
    assert fields[5] == ConfirmedPasswordField(sub) && fields[6] == AgreeField(sub);
    assert AllEmpty(outcomes) <==> forall i | 0 <= i < 7 :: outcomes[i] == "";
  }

  /** A submission is accepted exactly when every field meets its rules. */
  lemma AcceptedIff(sub: Submission)
    ensures Accepted(sub) <==>
      && Email.InEmailLanguage(sub.email)
      && Name.WellFormedName(sub.name) && |sub.name| <= 50
      && sub.gender != ""
      && sub.country.Some? && sub.country.value != ""
      && 8 <= |sub.password| <= 30
      && sub.confirmedPassword == sub.password
      && sub.agree.Some? && sub.agree.value != ""
  {
    AcceptedFieldByField(sub);
    EmailOutcome(sub.email);
    NameOutcome(sub.name, 50);
    RequiredOutcome(sub.gender);
    RequiredOutcome(OrEmpty(sub.country));
    LengthWindowOutcome(sub.password, 8, 30);
    ConfirmationOutcome(sub.confirmedPassword, 8, 30, sub.password, "Password", "ConfirmedPassword");
    RequiredOutcome(OrEmpty(sub.agree));
  }

  /** An empty e-mail fails both of its rules; the required-rule message is the
      one reported, because that rule is listed first. */
  lemma EmptyEmailReportsRequired(sub: Submission)
    requires sub.email == ""
    ensures IsRequired(sub.email) == RequiredMessage && IsEmail(sub.email) == EmailMessage
    ensures Outcomes(SignupFields(sub))[0] == RequiredMessage
  {
    EmailOutcome(sub.email);
  }

  /** A non-empty password shorter than eight characters reports the minimum. */
  lemma ShortPasswordReportsMin(sub: Submission)
    requires 1 <= |sub.password| < 8
    ensures Outcomes(SignupFields(sub))[4] == "Min is 8"
  {
    LengthWindowOutcome(sub.password, 8, 30);
    assert NatToString(8) == "8";
  }

  /** A confirmation of acceptable length that differs from the password
      reports the mismatch. */
  lemma MismatchReported(sub: Submission)
    requires 8 <= |sub.confirmedPassword| <= 30 && sub.confirmedPassword != sub.password
    ensures Outcomes(SignupFields(sub))[5] == "Password" + SameInfix + "ConfirmedPassword"
  {
    ConfirmationOutcome(sub.confirmedPassword, 8, 30, sub.password, "Password", "ConfirmedPassword");
  }
}
