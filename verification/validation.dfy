/**
  The hand-written `validate` function of the sign-in form (`form2`): it maps
  the two form values to an error object with at most an `email` and a
  `password` entry, each decided by its own field alone.
 */
module Validation {
  import opened Utf16
  import EmailPattern

  datatype Option<T> = None | Some(value: T)

  /** The values of the two inputs, as the form library hands them over. */
  datatype FormValues = FormValues(email: JsString, password: JsString)

  /** Both inputs start out empty. */
  const InitialValues := FormValues([], [])

  /**
    The error object. A JavaScript object with an optional `email` and an
    optional `password` key; `None` is an absent key. It has no other keys.
   */
  datatype Errors = Errors(email: Option<string>, password: Option<string>)

  /** The empty error object `{}`. */
  const NoErrors := Errors(None, None)

  const EmailRequired := "Email is required"
  const InvalidEmail := "Invalid Email"
  const PasswordRequired := "Password is required"
  const PasswordTooShort := "Password too short"

  /** Shortest password accepted, in UTF-16 code units. */
  const MinPasswordLength := 4

  /**
    The `email` entry: required first, then the shape test. A missing entry
    means exactly that the address has the accepted shape.
   */
  function EmailError(email: JsString): (r: Option<string>)
    ensures r == Some(EmailRequired) <==> email == []
    ensures r == Some(InvalidEmail) <==> email != [] && !EmailPattern.WellFormed(email)
    ensures r == None <==> EmailPattern.WellFormed(email)
  {
    EmailPattern.MatchesIffWellFormed(email);
    if email == [] then Some(EmailRequired)
    else if !EmailPattern.Matches(email) then Some(InvalidEmail)
    else None
  }

  /**
    The `password` entry: required first, then a minimum length, counted in
    code units as JavaScript's `length` does.
   */
  function PasswordError(password: JsString): (r: Option<string>)
    ensures r == Some(PasswordRequired) <==> password == []
    ensures r == Some(PasswordTooShort) <==> 0 < |password| < MinPasswordLength
    ensures r == None <==> |password| >= MinPasswordLength
  {
    if password == [] then Some(PasswordRequired)
    else if |password| < MinPasswordLength then Some(PasswordTooShort)
    else None
  }

  /**
    `validate(values)`. The result is empty, i.e. the form is valid, exactly
    when the address has the accepted shape and the password is long enough;
    every message it holds is one of the four fixed texts of its field.
   */
  function Validate(values: FormValues): (r: Errors)
    ensures r == NoErrors <==> EmailPattern.WellFormed(values.email) && |values.password| >= MinPasswordLength
    ensures r.email.Some? ==> r.email.value == EmailRequired || r.email.value == InvalidEmail
    ensures r.password.Some? ==> r.password.value == PasswordRequired || r.password.value == PasswordTooShort
  {
    Errors(EmailError(values.email), PasswordError(values.password))
  }

  /** Every message `Validate` produces is non-empty, hence truthy in JavaScript. */
  lemma MessagesNonEmpty(values: FormValues)
    ensures Validate(values).email.Some? ==> Validate(values).email.value != ""
    ensures Validate(values).password.Some? ==> Validate(values).password.value != ""
  {
  }

  /**
    The two entries are independent: the `email` entry depends on the email
    value only and the `password` entry on the password value only.
   */
  lemma FieldsIndependent(v: FormValues, w: FormValues)
    ensures v.email == w.email ==> Validate(v).email == Validate(w).email
    ensures v.password == w.password ==> Validate(v).password == Validate(w).password
  {
  }

  /** The initial values fail both rules with the "required" messages. */
  lemma InitialValuesInvalid()
    ensures Validate(InitialValues) == Errors(Some(EmailRequired), Some(PasswordRequired))
  {
  }

  /** "a@b.com" in units: local part "a", domain "b.com". */
  lemma ExampleAddressWellFormed()
    ensures EmailPattern.WellFormed(Encode("a@b.com"))
  {
    var t := "a@b.com";
    EncodeBmp(t);
    var s := Encode(t);
    assert s[1] == EmailPattern.At && s[3] == EmailPattern.Dot;
    assert forall k | 0 <= k < |t| && k != 1 :: t[k] != '@';
    assert forall k | 0 <= k < |s| :: !EmailPattern.IsSpace(s[k]);
    assert EmailPattern.DomainHasDot(s, 1);
  }

  /** A valid address with a four-character password gives no errors. */
  lemma ExampleValid()
    ensures Validate(FormValues(Encode("a@b.com"), Encode("abcd"))) == NoErrors
  {
    ExampleAddressWellFormed();
  }

  /** With a three-character password only the password entry is set. */
  lemma ExampleShortPassword()
    ensures Validate(FormValues(Encode("a@b.com"), Encode("abc"))) == Errors(None, Some(PasswordTooShort))
  {
    ExampleAddressWellFormed();
  }

  /** An address without `@` is rejected, whatever the password. */
  lemma ExampleBadEmail()
    ensures Validate(FormValues(Encode("bad-email"), Encode("abcd"))) == Errors(Some(InvalidEmail), None)
  {
    var t := "bad-email";
    EncodeBmp(t);
    assert forall k | 0 <= k < |t| :: t[k] != '@';
    EmailPattern.NoAtNotWellFormed(Encode(t));
  }

  /**
    Two characters outside the Basic Multilingual Plane are four code units,
    so such a password passes the length rule, while one of them does not.
   */
  lemma ExampleAstralPassword()
    ensures Validate(FormValues(Encode("a@b.com"), Encode("\U{1F600}\U{1F600}"))).password == None
    ensures Validate(FormValues(Encode("a@b.com"), Encode("\U{1F600}"))).password == Some(PasswordTooShort)
  {
  }
}
