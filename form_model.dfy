/**
 * The page's form: five input elements, each with its class list and the text
 * of the message paragraph beside it. showError/showSuccess update one element
 * in place; each check method trims its element's value, runs its rule chain
 * and shows the outcome; the submit handler runs all five checks.
 */
module FormModel {
  import opened JsText
  import opened EmailPattern
  import opened PasswordPattern
  import opened FieldRules

  /** An input element, with the message paragraph of its form-field wrapper. */
  class FieldElement {
    const id: string
    var value: string
    var classes: set<string>
    /** textContent of the field's message paragraph */
    var message: string

    constructor (id: string, value: string)
      ensures this.id == id && this.value == value
      ensures classes == {} && message == ""
    {
      this.id := id;
      this.value := value;
      classes := {};
      message := "";
    }

    /** The user edits the field. */
    method SetValue(v: string)
      modifies this`value
      ensures value == v
    {
      value := v;
    }
  }

  /**
   * The class list after an outcome is shown: "valid" exactly on a pass,
   * "invalid" exactly on a failure, every other class kept.
   */
  function Shown(before: set<string>, o: Outcome): (after: set<string>)
    ensures "valid" in after <==> o.Pass?
    ensures "invalid" in after <==> o.Fail?
    ensures forall c :: c != "valid" && c != "invalid" ==> (c in after <==> c in before)
  {
    match o
    case Pass => before - {"invalid"} + {"valid"}
    case Fail(_) => before - {"valid"} + {"invalid"}
  }

  /** The element shows outcome o: its classes and its message. */
  predicate Reflects(e: FieldElement, before: set<string>, o: Outcome)
    reads e
  {
    e.classes == Shown(before, o) && e.message == MessageOf(o)
  }

  /** showError */
  method ShowError(input: FieldElement, message: string)
    modifies input`classes, input`message
    ensures Reflects(input, old(input.classes), Fail(message))
  {
    input.classes := input.classes - {"valid"};
    input.classes := input.classes + {"invalid"};
    input.message := message;
  }

  /** showSuccess */
  method ShowSuccess(input: FieldElement)
    modifies input`classes, input`message
    ensures Reflects(input, old(input.classes), Pass)
  {
    input.classes := input.classes - {"invalid"};
    input.classes := input.classes + {"valid"};
    input.message := "";
  }

  class Form {
    const email: FieldElement
    const country: FieldElement
    const zip: FieldElement
    const password: FieldElement
    const passConf: FieldElement

    /** Each element carries its field's id; distinct ids make the five elements distinct. */
    ghost predicate WellFormed() {
      forall f :: Element(f).id == IdOf(f)
    }

    function Element(f: FieldId): FieldElement {
      match f
      case Email => email
      case Country => country
      case Zip => zip
      case Password => password
      case PassConf => passConf
    }

    /** The current values of the five fields. */
    function Current(): Values
      reads email, country, zip, password, passConf
    {
      Values(email.value, country.value, zip.value, password.value, passConf.value)
    }

    constructor (v: Values)
      ensures WellFormed() && Current() == v
      ensures forall f :: Element(f).classes == {} && Element(f).message == ""
    {
      email := new FieldElement("email", v.email);
      country := new FieldElement("country", v.country);
      zip := new FieldElement("zip", v.zip);
      password := new FieldElement("password", v.password);
      passConf := new FieldElement("pass-conf", v.passConf);
      new;
      forall f ensures Element(f).id == IdOf(f) && Element(f).classes == {} && Element(f).message == "" {
        match f
        case Email =>
        case Country =>
        case Zip =>
        case Password =>
        case PassConf =>
      }
    }

    lemma ElementsDistinct()
      requires WellFormed()
      ensures email != country && email != zip && email != password && email != passConf
      ensures country != zip && country != password && country != passConf
      ensures zip != password && zip != passConf && password != passConf
    {
      assert Element(Email).id == "email" && Element(Country).id == "country" && Element(Zip).id == "zip";
      assert Element(Password).id == "password" && Element(PassConf).id == "pass-conf";
    }

    /** The user types s into field f. */
    method Edit(f: FieldId, s: string)
      requires WellFormed()
      modifies Element(f)`value
      ensures Current() == WithValue(old(Current()), f, s)
    {
      ElementsDistinct();
      Element(f).SetValue(s);
    }

    /** checkEmail */
    method CheckEmail() returns (valid: bool)
      modifies email`classes, email`message
      ensures valid <==> FieldOutcome(Email, Current()) == Pass
      ensures Reflects(email, old(email.classes), FieldOutcome(Email, Current()))
    {
      valid := false;
      assert FieldOutcome(Email, Current()) == EmailOutcome(email.value);
      var e := Trim(email.value);
      if !IsRequired(e) {
        ShowError(email, EmailRequired);
      } else if !IsEmailValid(e) {
        ShowError(email, EmailInvalid);
      } else {
        ShowSuccess(email);
        valid := true;
      }
    }

    /** checkCountry */
    method CheckCountry() returns (valid: bool)
      modifies country`classes, country`message
      ensures valid <==> FieldOutcome(Country, Current()) == Pass
      ensures Reflects(country, old(country.classes), FieldOutcome(Country, Current()))
    {
      valid := false;
      assert FieldOutcome(Country, Current()) == CountryOutcome(country.value);
      var c := Trim(country.value);
      if !IsRequired(c) {
        ShowError(country, CountryRequired);
      } else if !IsBetween(|c|, CountryMin, CountryMax) {
        ShowError(country, CountryLength);
      } else {
        ShowSuccess(country);
        valid := true;
      }
    }

    /** checkZip */
    method CheckZip() returns (valid: bool)
      modifies zip`classes, zip`message
      ensures valid <==> FieldOutcome(Zip, Current()) == Pass
      ensures Reflects(zip, old(zip.classes), FieldOutcome(Zip, Current()))
    {
      valid := false;
      assert FieldOutcome(Zip, Current()) == ZipOutcome(zip.value);
      var z := Trim(zip.value);
      if !IsRequired(z) {
        ShowError(zip, ZipRequired);
      } else if !IsBetween(|z|, ZipMin, ZipMax) {
        ShowError(zip, ZipLength);
      } else {
        ShowSuccess(zip);
        valid := true;
      }
    }

    /** checkPassword */
    method CheckPassword() returns (valid: bool)
      modifies password`classes, password`message
      ensures valid <==> FieldOutcome(Password, Current()) == Pass
      ensures Reflects(password, old(password.classes), FieldOutcome(Password, Current()))
    {
      valid := false;
      assert FieldOutcome(Password, Current()) == PasswordOutcome(password.value);
      var p := Trim(password.value);
      if !IsRequired(p) {
        ShowError(password, PasswordRequired);
      } else if !IsPasswordSecure(p) {
        ShowError(password, PasswordWeak);
      } else {
        ShowSuccess(password);
        valid := true;
      }
    }

    /** checkPasswordConf: compares with the password field's trimmed value. */
    method CheckPasswordConf() returns (valid: bool)
      modifies passConf`classes, passConf`message
      ensures valid <==> FieldOutcome(PassConf, Current()) == Pass
      ensures Reflects(passConf, old(passConf.classes), FieldOutcome(PassConf, Current()))
    {
      valid := false;
      assert FieldOutcome(PassConf, Current()) == PassConfOutcome(passConf.value, password.value);
      var c := Trim(passConf.value);
      var p := Trim(password.value);
      if !IsRequired(c) {
        ShowError(passConf, PassConfRequired);
      } else if p != c {
        ShowError(passConf, PassConfMismatch);
      } else {
        ShowSuccess(passConf);
        valid := true;
      }
    }

    /**
     * The submit handler: all five checks run, so every field shows its outcome
     * even after an earlier one fails, and the form is valid when all pass.
     */
    method Submit() returns (isFormValid: bool)
      requires WellFormed()
      modifies email`classes, email`message, country`classes, country`message, zip`classes, zip`message
      modifies password`classes, password`message, passConf`classes, passConf`message
      ensures Current() == old(Current())
      ensures isFormValid <==> FormPasses(Current())
      ensures forall f :: Reflects(Element(f), old(Element(f).classes), FieldOutcome(f, Current()))
    {
      ElementsDistinct();
      var isEmailValid := CheckEmail();
      var isCountryValid := CheckCountry();
      var isZipValid := CheckZip();
      var isPasswordValid := CheckPassword();
      var isPassConfValid := CheckPasswordConf();
      isFormValid := isEmailValid && isCountryValid && isZipValid && isPasswordValid && isPassConfValid;
      forall f ensures Reflects(Element(f), old(Element(f).classes), FieldOutcome(f, Current())) {
        match f
        case Email =>
        case Country =>
        case Zip =>
        case Password =>
        case PassConf =>
      }
    }
  }
}
