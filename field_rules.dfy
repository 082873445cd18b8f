/**
 * The rule chain of each of the five fields: the trimmed value is tested rule
 * by rule and the first failing rule decides the message. These functions are
 * the specification that the check methods of FormModel are proved against.
 */
module FieldRules {
  import opened JsText
  import opened EmailPattern
  import opened PasswordPattern

  /** isRequired */
  function IsRequired(value: string): (r: bool)
    ensures r <==> |value| > 0
  {
    if value == "" then false else true
  }

  /** isBetween: both bounds inclusive */
  function IsBetween(length: int, min: int, max: int): (r: bool)
    ensures r <==> min <= length && length <= max
  {
    if length < min || length > max then false else true
  }

  /** The five fields, with the element ids the page gives them. */
  datatype FieldId = Email | Country | Zip | Password | PassConf

  function IdOf(f: FieldId): string {
    match f
    case Email => "email"
    case Country => "country"
    case Zip => "zip"
    case Password => "password"
    case PassConf => "pass-conf"
  }

  /** The result of one check: pass, or fail with the message to display. */
  datatype Outcome = Pass | Fail(message: string)

  /** The text the message element shows for an outcome. */
  function MessageOf(o: Outcome): string {
    match o
    case Pass => ""
    case Fail(m) => m
  }

  const CountryMin := 4
  const CountryMax := 56
  const ZipMin := 5
  const ZipMax := 10

  const EmailRequired := "Please enter an email address."
  const EmailInvalid := "Not a valid email address."
  const CountryRequired := "Please enter a country."
  const CountryLength := "Country must be a minimum of 4 letters long."
  const ZipRequired := "Please enter a zip (or postal) code."
  const ZipLength := "Zip code must be between 5 and 10 characters long"
  const PasswordRequired := "Please enter password."
  const PasswordWeak := "Password must be at least 8 characters long and include at least 1 lowercase, 1 uppercase, 1 number, and 1 special character in(!@#$%^&*)"
  const PassConfRequired := "Please enter the password again"
  const PassConfMismatch := "Password does not match."

  /** checkEmail's rules: required, then the email pattern. */
  function EmailOutcome(raw: string): (o: Outcome)
    ensures o == Pass <==> IsEmailValid(Trim(raw))
    ensures o == Fail(EmailRequired) <==> AllWhitespace(raw)
    ensures o == Fail(EmailInvalid) <==> !AllWhitespace(raw) && !IsEmailValid(Trim(raw))
  {
    var email := Trim(raw);
    if !IsRequired(email) then Fail(EmailRequired)
    else if !IsEmailValid(email) then Fail(EmailInvalid)
    else Pass
  }

  /** checkCountry's rules: required, then a length between 4 and 56. */
  function CountryOutcome(raw: string): (o: Outcome)
    ensures o == Pass <==> CountryMin <= |Trim(raw)| <= CountryMax
    ensures o == Fail(CountryRequired) <==> AllWhitespace(raw)
    ensures o == Fail(CountryLength) <==> !AllWhitespace(raw) && !(CountryMin <= |Trim(raw)| <= CountryMax)
  {
    var country := Trim(raw);
    if !IsRequired(country) then Fail(CountryRequired)
    else if !IsBetween(|country|, CountryMin, CountryMax) then Fail(CountryLength)
    else Pass
  }

  /** checkZip's rules: required, then a length between 5 and 10. */
  function ZipOutcome(raw: string): (o: Outcome)
    ensures o == Pass <==> ZipMin <= |Trim(raw)| <= ZipMax
    ensures o == Fail(ZipRequired) <==> AllWhitespace(raw)
    ensures o == Fail(ZipLength) <==> !AllWhitespace(raw) && !(ZipMin <= |Trim(raw)| <= ZipMax)
  {
    var zip := Trim(raw);
    if !IsRequired(zip) then Fail(ZipRequired)
    else if !IsBetween(|zip|, ZipMin, ZipMax) then Fail(ZipLength)
    else Pass
  }

  /** checkPassword's rules: required, then the password pattern. */
  function PasswordOutcome(raw: string): (o: Outcome)
    ensures o == Pass <==> IsPasswordSecure(Trim(raw))
    ensures o == Fail(PasswordRequired) <==> AllWhitespace(raw)
    ensures o == Fail(PasswordWeak) <==> !AllWhitespace(raw) && !IsPasswordSecure(Trim(raw))
  {
    var password := Trim(raw);
    if !IsRequired(password) then Fail(PasswordRequired)
    else if !IsPasswordSecure(password) then Fail(PasswordWeak)
    else Pass
  }

  /** checkPasswordConf's rules: required, then equal to the trimmed password. */
  function PassConfOutcome(rawConf: string, rawPassword: string): (o: Outcome)
    ensures o == Pass <==> !AllWhitespace(rawConf) && Trim(rawConf) == Trim(rawPassword)
    ensures o == Fail(PassConfRequired) <==> AllWhitespace(rawConf)
    ensures o == Fail(PassConfMismatch) <==> !AllWhitespace(rawConf) && Trim(rawConf) != Trim(rawPassword)
  {
    var passConf := Trim(rawConf);
    var password := Trim(rawPassword);
    if !IsRequired(passConf) then Fail(PassConfRequired)
    else if password != passConf then Fail(PassConfMismatch)
    else Pass
  }

  /** The current values of the five fields. */
  datatype Values = Values(email: string, country: string, zip: string, password: string, passConf: string)

  function ValueOf(f: FieldId, v: Values): string {
    match f
    case Email => v.email
    case Country => v.country
    case Zip => v.zip
    case Password => v.password
    case PassConf => v.passConf
  }

  function FieldOutcome(f: FieldId, v: Values): Outcome {
    match f
    case Email => EmailOutcome(v.email)
    case Country => CountryOutcome(v.country)
    case Zip => ZipOutcome(v.zip)
    case Password => PasswordOutcome(v.password)
    case PassConf => PassConfOutcome(v.passConf, v.password)
  }

  /** The values after the user types s into field f. */
  function WithValue(v: Values, f: FieldId, s: string): (w: Values)
    ensures ValueOf(f, w) == s
    ensures forall g :: g != f ==> ValueOf(g, w) == ValueOf(g, v)
  {
    match f
    case Email => v.(email := s)
    case Country => v.(country := s)
    case Zip => v.(zip := s)
    case Password => v.(password := s)
    case PassConf => v.(passConf := s)
  }

  /** The message of a field's first rule. */
  function RequiredMessage(f: FieldId): string {
    match f
    case Email => EmailRequired
    case Country => CountryRequired
    case Zip => ZipRequired
    case Password => PasswordRequired
    case PassConf => PassConfRequired
  }

  /** The message of a field's second rule. */
  function RuleMessage(f: FieldId): string {
    match f
    case Email => EmailInvalid
    case Country => CountryLength
    case Zip => ZipLength
    case Password => PasswordWeak
    case PassConf => PassConfMismatch
  }

  /** The submission gate: the five results combined with &&; the form passes exactly when every field passes. */
  predicate FormPasses(v: Values)
    ensures FormPasses(v) <==> forall f :: FieldOutcome(f, v) == Pass
  {
    FiveCoverAll(v);
    && FieldOutcome(Email, v) == Pass
    && FieldOutcome(Country, v) == Pass
    && FieldOutcome(Zip, v) == Pass
    && FieldOutcome(Password, v) == Pass
    && FieldOutcome(PassConf, v) == Pass
  }

  /** The five fields are all the fields. */
  lemma FiveCoverAll(v: Values)
    ensures
      (&& FieldOutcome(Email, v) == Pass
       && FieldOutcome(Country, v) == Pass
       && FieldOutcome(Zip, v) == Pass
       && FieldOutcome(Password, v) == Pass
       && FieldOutcome(PassConf, v) == Pass)
      ==> forall f :: FieldOutcome(f, v) == Pass
  {
    forall f | FieldOutcome(f, v) != Pass
      ensures FieldOutcome(Email, v) != Pass || FieldOutcome(Country, v) != Pass || FieldOutcome(Zip, v) != Pass
        || FieldOutcome(Password, v) != Pass || FieldOutcome(PassConf, v) != Pass
    {
      match f
      case Email =>
      case Country =>
      case Zip =>
      case Password =>
      case PassConf =>
    }
  }

  // ---------------------------------------------------------------------------
  // Properties of the rule chains

  /**
   * A blank (empty or white-space-only) value fails with the field's first
   * message whatever the second rule would say; the second message is shown
   * only for a value that is not blank; no other message is ever shown.
   */
  lemma FirstFailureWins(f: FieldId, v: Values)
    ensures FieldOutcome(f, v) == Fail(RequiredMessage(f)) <==> AllWhitespace(ValueOf(f, v))
    ensures FieldOutcome(f, v) == Fail(RuleMessage(f)) ==> !AllWhitespace(ValueOf(f, v))
    ensures FieldOutcome(f, v) == Pass || FieldOutcome(f, v) == Fail(RequiredMessage(f)) || FieldOutcome(f, v) == Fail(RuleMessage(f))
  {
    match f
    case Email =>
    case Country =>
    case Zip =>
    case Password =>
    case PassConf =>
  }

  /** A secure password is never blank. */
  lemma SecurePasswordIsNotBlank(p: string)
    requires IsPasswordSecure(p)
    ensures p != []
  {
    assert |FirstLine(p)| >= MinLength;
  }

  lemma EmailFieldPasses(v: Values)
    ensures FieldOutcome(Email, v) == Pass <==> IsEmailValid(Trim(v.email))
  {
    assert FieldOutcome(Email, v) == EmailOutcome(v.email);
  }

  lemma PasswordFieldPasses(v: Values)
    ensures FieldOutcome(Password, v) == Pass <==> IsPasswordSecure(Trim(v.password))
  {
    assert FieldOutcome(Password, v) == PasswordOutcome(v.password);
  }

  lemma PassConfFieldPasses(v: Values)
    ensures FieldOutcome(PassConf, v) == Pass <==> !AllWhitespace(v.passConf) && Trim(v.passConf) == Trim(v.password)
  {
    assert FieldOutcome(PassConf, v) == PassConfOutcome(v.passConf, v.password);
  }

  /** The form passes exactly when each field's own rules hold of its trimmed value. */
  lemma FormPassesExactly(v: Values)
    ensures FormPasses(v) <==>
      && IsEmailValid(Trim(v.email))
      && CountryMin <= |Trim(v.country)| <= CountryMax
      && ZipMin <= |Trim(v.zip)| <= ZipMax
      && IsPasswordSecure(Trim(v.password))
      && Trim(v.passConf) == Trim(v.password)
  {
    EmailFieldPasses(v);
    PasswordFieldPasses(v);
    PassConfFieldPasses(v);
    assert FieldOutcome(Country, v) == CountryOutcome(v.country);
    assert FieldOutcome(Zip, v) == ZipOutcome(v.zip);
    if IsPasswordSecure(Trim(v.password)) && Trim(v.passConf) == Trim(v.password) {
      SecurePasswordIsNotBlank(Trim(v.password));
    }
  }

  /** When the form passes, the confirmation is itself a secure password. */
  lemma PassingConfirmationIsSecure(v: Values)
    requires FormPasses(v)
    ensures IsPasswordSecure(Trim(v.passConf))
  {
    FormPassesExactly(v);
  }

  /** The length rules at their boundaries; an over-long country gets the "minimum" message. */
  lemma LengthBoundaries(raw: string)
    ensures |Trim(raw)| == 3 || |Trim(raw)| == 57 ==> CountryOutcome(raw) == Fail(CountryLength)
    ensures |Trim(raw)| == 4 || |Trim(raw)| == 56 ==> CountryOutcome(raw) == Pass
    ensures |Trim(raw)| == 4 || |Trim(raw)| == 11 ==> ZipOutcome(raw) == Fail(ZipLength)
    ensures |Trim(raw)| == 5 || |Trim(raw)| == 10 ==> ZipOutcome(raw) == Pass
  {
  }

  /** The confirmation is compared after trimming, and a blank one is reported as missing. */
  lemma ConfirmationExamples()
    ensures PassConfOutcome("Abcdef1! ", "Abcdef1!") == Pass
    ensures PassConfOutcome("Abcdef1", "Abcdef1!") == Fail(PassConfMismatch)
    ensures PassConfOutcome("", "") == Fail(PassConfRequired)
  {
    var conf := "Abcdef1! ";
    TrimAt(conf, 0, 8);
    assert conf[..8] == "Abcdef1!";
    TrimAt("Abcdef1!", 0, 8);
    TrimAt("Abcdef1", 0, 7);
  }
}
