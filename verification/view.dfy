/**
  The display and enable rules of the sign-in template (`form2`): which
  fields show an error span and the `input-error` class, and when the submit
  button is disabled and carries the `disabled-btn` class. They read the
  form library's current `values`, `errors` and `touched`; `dirty` and
  `isValid` are derived from those.
 */
module View {
  import opened Validation
  import EmailPattern

  /** Which inputs have lost focus at least once (`touched.email`, `touched.password`). */
  datatype Touched = Touched(email: bool, password: bool)

  const Untouched := Touched(false, false)

  /** The form library's state, as handed to the template on each render. */
  datatype FormState = FormState(values: FormValues, errors: Errors, touched: Touched)

  const InputErrorClass := "input-error"
  const DisabledClass := "disabled-btn"

  /** One input row: the input's `className` (`null` is `None`) and the optional error span's text. */
  datatype FieldView = FieldView(className: Option<string>, errorSpan: Option<string>)

  /** The submit button's `className` and `disabled` attribute. */
  datatype ButtonView = ButtonView(className: string, disabled: bool)

  datatype FormView = FormView(email: FieldView, password: FieldView, submit: ButtonView)

  /** JavaScript truthiness of an optional message: present and not the empty string. */
  predicate Truthy(m: Option<string>) { m.Some? && m.value != "" }

  /** `dirty`: the values differ from the initial ones. */
  predicate Dirty(values: FormValues) { values != InitialValues }

  /** `isValid`: the error object has no keys. */
  predicate IsValid(errors: Errors) { errors == NoErrors }

  /**
    One input row, from `errors.<field> && touched.<field>`. The span shows
    the field's own message, and the error class is present exactly when
    the span is.
   */
  function RenderField(error: Option<string>, touched: bool): (r: FieldView)
    ensures r.errorSpan.Some? <==> touched && Truthy(error)
    ensures r.errorSpan.Some? ==> r.errorSpan == error
    ensures r.className.Some? <==> r.errorSpan.Some?
    ensures r.className.Some? ==> r.className.value == InputErrorClass
  {
    if Truthy(error) && touched then FieldView(Some(InputErrorClass), error)
    else FieldView(None, None)
  }

  /** The submit button, from `dirty && isValid`: disabled and greyed out together. */
  function RenderSubmit(dirty: bool, isValid: bool): (r: ButtonView)
    ensures r.disabled <==> !(dirty && isValid)
    ensures r.className == DisabledClass <==> r.disabled
    ensures r.className == "" <==> !r.disabled
  {
    var enabled := dirty && isValid;
    ButtonView(if enabled then "" else DisabledClass, !enabled)
  }

  /**
    The whole template. The button is disabled exactly when the values are
    still the initial ones or the error object has an entry; a field shows
    its error exactly when it is touched and its entry is a non-empty text.
   */
  function Render(s: FormState): (r: FormView)
    ensures r.submit.disabled <==> s.values == InitialValues || s.errors.email.Some? || s.errors.password.Some?
    ensures r.submit.className == DisabledClass <==> r.submit.disabled
    ensures r.email.errorSpan.Some? <==> s.touched.email && Truthy(s.errors.email)
    ensures r.password.errorSpan.Some? <==> s.touched.password && Truthy(s.errors.password)
    ensures r.email.errorSpan.Some? ==> r.email.errorSpan == s.errors.email
    ensures r.password.errorSpan.Some? ==> r.password.errorSpan == s.errors.password
    ensures r.email.className.Some? <==> r.email.errorSpan.Some?
    ensures r.password.className.Some? <==> r.password.errorSpan.Some?
  {
    FormView(
      RenderField(s.errors.email, s.touched.email),
      RenderField(s.errors.password, s.touched.password),
      RenderSubmit(Dirty(s.values), IsValid(s.errors)))
  }

  /**
    With the errors `validate` computed, a field shows an error exactly when
    it is touched and has an entry, and the span holds that entry's message.
   */
  lemma ValidatedErrorShown(values: FormValues, touched: Touched)
    ensures var r := Render(FormState(values, Validate(values), touched));
      && (r.email.errorSpan.Some? <==> touched.email && Validate(values).email.Some?)
      && (r.password.errorSpan.Some? <==> touched.password && Validate(values).password.Some?)
      && (r.email.errorSpan.Some? ==> r.email.errorSpan == Validate(values).email)
      && (r.password.errorSpan.Some? ==> r.password.errorSpan == Validate(values).password)
  {
    MessagesNonEmpty(values);
  }

  /**
    With the errors `validate` computed, the button is enabled exactly when
    the address has the accepted shape and the password is long enough: the
    `dirty` test adds nothing once validation has run, since a valid address
    is never empty.
   */
  lemma ValidatedSubmitEnabled(values: FormValues, touched: Touched)
    ensures !Render(FormState(values, Validate(values), touched)).submit.disabled
      <==> EmailPattern.WellFormed(values.email) && |values.password| >= MinPasswordLength
  {
  }

  /**
    The pristine form: the library starts with no errors (validation has not
    run yet), so `isValid` holds, and only `dirty` keeps the button disabled.
    Nothing is touched, so no error is shown.
   */
  lemma PristineDisabled(errors: Errors, touched: Touched)
    ensures Render(FormState(InitialValues, errors, touched)).submit.disabled
    ensures var r := Render(FormState(InitialValues, NoErrors, Untouched));
      r.submit.disabled && r.submit.className == DisabledClass
      && r.email.errorSpan == None && r.password.errorSpan == None
  {
  }

  /** Touching the empty email field shows "Email is required" under it. */
  lemma TouchedEmptyEmailShown(password: Utf16.JsString)
    ensures var values := FormValues([], password);
      Render(FormState(values, Validate(values), Touched(true, false))).email
        == FieldView(Some(InputErrorClass), Some(EmailRequired))
  {
  }
}
